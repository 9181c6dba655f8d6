/** Intel HEX files: b2ihex, ihex_readrec and ihex2b.  (Intel Hexadecimal Object
    File Format Specification, Revision A, 1988.) */
module IntelHex {
  import opened Options
  import opened CText
  import opened HexRecords

  // ----- records

  /** The byte that brings the sum of a record to zero modulo 256. */
  function Checksum(bs: seq<octet>): octet {
    Negated(ByteSum(bs))
  }

  /** Length, load offset, type, data and checksum. */
  function Record(rectyp: octet, addr: nat, data: seq<octet>): (r: seq<octet>)
    requires addr < 0x1_0000 && |data| < 256
    ensures |r| == |data| + 5 && r[0] == |data|
  {
    var body := [|data|, addr / 256, addr % 256, rectyp] + data;
    body + [Checksum(body)]
  }

  function Line(rec: seq<octet>): string {
    ":" + HexAll(rec)
  }

  function RecordLines(recs: seq<seq<octet>>): (ls: seq<string>)
    ensures |ls| == |recs|
  {
    seq(|recs|, i requires 0 <= i < |recs| => Line(recs[i]))
  }

  /** An extended linear address record. */
  function AddressRecord(block: nat): seq<octet> {
    Record(4, 0, [block / 256 % 256, block % 256])
  }

  /** The records of buf from off on, when the last address record named block n64k and
      the next byte has address nextaddr in it. */
  function Records(buf: seq<octet>, off: nat, nextaddr: nat, n64k: nat, recsize: nat): seq<seq<octet>>
    requires off <= |buf| && nextaddr < 0x1_0000 && 0 < recsize < 256
    decreases |buf| - off
  {
    if off == |buf| then [Record(1, 0, [])]
    else
      var n := Min(Min(recsize, |buf| - off), 0x1_0000 - nextaddr);
      var here := Record(0, nextaddr, buf[off..off + n]);
      if nextaddr + n == 0x1_0000
      then [here, AddressRecord(n64k + 1)] + Records(buf, off + n, 0, n64k + 1, recsize)
      else [here] + Records(buf, off + n, nextaddr + n, n64k, recsize)
  }

  // ----- reading one record

  /** A record as read; its length is the number of data bytes. */
  datatype Rec = Rec(loadofs: nat, rectyp: octet, data: seq<octet>, cksum: octet, computed: octet)

  function ReadRest(rec: string, len: octet, loadofs: nat, typ: octet): (r: Option<Rec>)
    ensures r.Some? ==> |r.value.data| == len
  {
    match (ReadBytes(rec, 9, len), ByteField(rec, 9 + 2 * len))
    case (Some(data), Some(ck)) =>
      Some(Rec(loadofs, typ, data, ck, Checksum([len, High(loadofs), Low(loadofs), typ] + data)))
    case _ => None
  }

  /** What ihex_readrec makes of a line. */
  function ReadRec(rec: string): (r: Option<Rec>)
    ensures r.Some? ==> |r.value.data| < 256
  {
    match (ByteField(rec, 1), Field(rec, 3, 4), ByteField(rec, 7))
    case (Some(len), Some(ofs), Some(typ)) => ReadRest(rec, len, ofs % 0x1_0000_0000, typ)
    case _ => None
  }

  lemma RestOfLine(rec: seq<octet>)
    requires |rec| >= 5 && rec[0] == |rec| - 5
    ensures ReadRest(Line(rec), rec[0], Word(rec[1], rec[2]), rec[3]) ==
      Some(Rec(Word(rec[1], rec[2]), rec[3], rec[4..|rec| - 1], rec[|rec| - 1], Checksum(rec[..|rec| - 1])))
  {
    hide HexAll, Field, ByteField, ReadBytes, Checksum, BigEndian, Word;
    var n := |rec|;
    LineBytes(":", rec, 4, n - 5);
    LineByte(":", rec, n - 1);
    assert rec[4..4 + (n - 5)] == rec[4..n - 1];
    WordBytes(rec[1], rec[2]);
    assert [rec[0], rec[1], rec[2], rec[3]] + rec[4..n - 1] == rec[..n - 1];
  }

  /** A line that spells bytes with the right length byte is read as those bytes. */
  lemma ReadLine(rec: seq<octet>)
    requires |rec| >= 5 && rec[0] == |rec| - 5
    ensures ReadRec(Line(rec)) == Some(Rec(Word(rec[1], rec[2]), rec[3], rec[4..|rec| - 1],
                                          rec[|rec| - 1], Checksum(rec[..|rec| - 1])))
  {
    hide HexAll, Field, ByteField, ReadRest, Checksum, BigEndian, Word;
    LineByte(":", rec, 0);
    LineField(":", rec, 1, 3);
    LineByte(":", rec, 3);
    assert rec[1..3] == [rec[1], rec[2]];
    BigEndianShort(rec[1], rec[2]);
    WordBytes(rec[1], rec[2]);
    RestOfLine(rec);
  }

  /** The computed checksum equals the stored one exactly if the bytes sum to zero. */
  lemma ChecksumTells(front: seq<octet>, last: octet)
    ensures Checksum(front) == last <==> Sum(front + [last]) % 256 == 0
  {
    SumAppend(front, [last]);
    assert Sum([last]) == last by {
      assert [last][..0] == [];
    }
    ZeroSum(Sum(front), last);
  }

  lemma ZeroSum(s: nat, c: octet)
    ensures (256 - s % 256) % 256 == c <==> (s + c) % 256 == 0
  {
  }

  lemma RecordSums(rectyp: octet, addr: nat, data: seq<octet>)
    requires addr < 0x1_0000 && |data| < 256
    ensures Sum(Record(rectyp, addr, data)) % 256 == 0
  {
    var body := [|data|, addr / 256, addr % 256, rectyp] + data;
    ChecksumTells(body, Checksum(body));
  }

  // ----- reading a file

  /** Memory image, tags, base address, highest address, and the data field of the
      last record read (an address record with too little data uses what is left there). */
  datatype LoadState = LoadState(buf: seq<octet>, tags: seq<bool>, base: nat, max: nat, data: seq<octet>)

  predicate ValidState(st: LoadState) {
    |st.buf| == |st.tags| && |st.data| == IHEX_MAXDATA
  }

  /** Overrun: the bounds test was passed by a sum that wrapped around, and the store that follows
      is outside the memory; nothing is said of the program after that. */
  datatype Step = Continue(st: LoadState) | Finish(st: LoadState, rc: int) | Overrun(st: LoadState)

  function Store(st: LoadState, at: nat, data: seq<octet>): (r: LoadState)
    requires ValidState(st) && at + |data| <= |st.buf|
    ensures ValidState(r)
  {
    st.(buf := st.buf[..at] + data + st.buf[at + |data|..],
        tags := st.tags[..at] + seq(|data|, _ => true) + st.tags[at + |data|..],
        max := if at + |data| > st.max then at + |data| else st.max)
  }

  /** The switch over the record types. */
  function UseRecord(r: Rec, st: LoadState): (s: Step)
    requires ValidState(st)
    ensures ValidState(s.st)
  {
    match r.rectyp
    case 0 =>
      var nextaddr := Wrapped(r.loadofs + st.base);
      if !BoundsTest(nextaddr, |r.data|, |st.buf|) then Finish(st, -1)
      else if nextaddr + |r.data| > |st.buf| then Overrun(st)
      else Continue(Store(st, nextaddr, r.data))
    case 1 => Finish(st, st.max)
    case 2 => Continue(st.(base := Word(st.data[0], st.data[1]) * 16))
    case 4 => Continue(st.(base := Word(st.data[0], st.data[1]) * 0x1_0000))
    case _ => if r.rectyp == 3 || r.rectyp == 5 then Continue(st) else Finish(st, -1)
  }

  /** One line of the file: the body of the loop of ihex2b. */
  function ReadOneLine(line: string, st: LoadState): (r: Step)
    requires ValidState(st)
    ensures ValidState(r.st)
  {
    if line == [] || line[0] != ':' then Continue(st)
    else
      match ReadRec(line)
      case None => Finish(st, -1)
      case Some(r) =>
        if r.computed != r.cksum then Finish(st, -1)
        else
          var st1 := st.(data := r.data + st.data[|r.data|..]);
          UseRecord(r, st1)
  }

  function Load(lines: seq<string>, st: LoadState): (r: Step)
    requires ValidState(st)
    ensures ValidState(r.st) && !r.Continue?
    decreases |lines|
  {
    if lines == [] then Finish(st, if st.max == 0 then -1 else st.max)
    else
      var s := ReadOneLine(lines[0], st);
      if s.Continue? then Load(lines[1..], s.st) else s
  }

  /** A data record is stored outside the memory exactly if its end wraps around to an address
      that the bounds test lets pass. */
  lemma OverrunExactly(r: Rec, st: LoadState)
    requires ValidState(st) && r.rectyp == 0 && |r.data| < 256 && |st.buf| < UINT_RANGE
    ensures var at := Wrapped(r.loadofs + st.base);
      UseRecord(r, st).Overrun? <==> at + |r.data| >= UINT_RANGE && at + |r.data| - UINT_RANGE <= |st.buf|
  {
    var at := Wrapped(r.loadofs + st.base);
    BoundsTestProtects(at, |r.data|, |st.buf|);
    if at + |r.data| >= UINT_RANGE {
      WrapsOnce(at + |r.data|);
    }
  }

  /** Two bytes at the last address of the address space. */
  lemma LastAddressOverruns(st: LoadState, ck: octet)
    requires ValidState(st) && st.base == 0xffff_0000 && 1 <= |st.buf| < UINT_RANGE
    ensures UseRecord(Rec(0xffff, 0, [1, 2], ck, ck), st).Overrun?
  {
    OverrunExactly(Rec(0xffff, 0, [1, 2], ck, ck), st);
  }

  // ----- the round trip

  /** st after the first off bytes of buf were read, with the base at block n64k. */
  predicate Loaded(st: LoadState, buf: seq<octet>, tags: seq<bool>, mem: seq<octet>, off: nat, n64k: nat) {
    && ValidState(st) && off <= |buf| <= |mem| && |st.buf| == |mem| == |tags|
    && st.base == n64k * 0x1_0000 && st.max == off
    && st.buf == buf[..off] + mem[off..]
    && st.tags == seq(off, _ => true) + tags[off..]
  }

  lemma RecordRead(rectyp: octet, addr: nat, data: seq<octet>)
    requires addr < 0x1_0000 && |data| < 256
    ensures var r := ReadRec(Line(Record(rectyp, addr, data)));
      && r.Some? && r.value.loadofs == addr && r.value.rectyp == rectyp && r.value.data == data
      && r.value.computed == r.value.cksum
  {
    hide Line, Checksum;
    var r := Record(rectyp, addr, data);
    ReadLine(r);
    assert r[4..|r| - 1] == data;
    assert r[..|r| - 1] == [|data|, addr / 256, addr % 256, rectyp] + data;
    assert Word(addr / 256, addr % 256) == addr;
  }

  lemma LineStarts(rec: seq<octet>)
    ensures Line(rec) != [] && Line(rec)[0] == ':'
  {
  }

  lemma DataRead(st: LoadState, buf: seq<octet>, tags: seq<bool>, mem: seq<octet>, off: nat, n64k: nat, nextaddr: nat, n: nat)
    requires Loaded(st, buf, tags, mem, off, n64k) && off == n64k * 0x1_0000 + nextaddr && nextaddr < 0x1_0000
    requires 0 < n < 256 && off + n <= |buf| < 0x8000_0000
    ensures var s := ReadOneLine(Line(Record(0, nextaddr, buf[off..off + n])), st);
      s.Continue? && Loaded(s.st, buf, tags, mem, off + n, n64k)
  {
    hide Line, ReadRec, Record;
    var data := buf[off..off + n];
    NoWrap(off, n, |mem|);
    LineStarts(Record(0, nextaddr, data));
    RecordRead(0, nextaddr, data);
    var s := ReadOneLine(Line(Record(0, nextaddr, data)), st);
    assert s.Continue? && s.st.max == off + n;
    assert s.st.buf == st.buf[..off] + data + st.buf[off + n..];
    assert buf[..off] + data + mem[off + n..] == buf[..off + n] + mem[off + n..];
    assert s.st.tags == st.tags[..off] + seq(n, _ => true) + st.tags[off + n..];
  }

  lemma AddressRead(st: LoadState, buf: seq<octet>, tags: seq<bool>, mem: seq<octet>, off: nat, n64k: nat, block: nat)
    requires Loaded(st, buf, tags, mem, off, n64k) && block < 0x1_0000
    ensures var s := ReadOneLine(Line(AddressRecord(block)), st);
      s.Continue? && Loaded(s.st, buf, tags, mem, off, block)
  {
    hide Line, ReadRec, Record;
    LineStarts(AddressRecord(block));
    RecordRead(4, 0, [block / 256 % 256, block % 256]);
    BlockBytes(block);
  }

  lemma BlockBytes(block: nat)
    requires block < 0x1_0000
    ensures Word(block / 256 % 256, block % 256) == block
  {
  }

  lemma EndRead(st: LoadState)
    requires ValidState(st)
    ensures var s := ReadOneLine(Line(Record(1, 0, [])), st);
      s.Finish? && s.rc == st.max && s.st.buf == st.buf && s.st.tags == st.tags
  {
    hide Line, ReadRec, Record;
    LineStarts(Record(1, 0, []));
    RecordRead(1, 0, []);
  }

  function LoadAll(recs: seq<seq<octet>>, st: LoadState): (r: Step)
    requires ValidState(st)
    ensures ValidState(r.st) && !r.Continue?
  {
    Load(RecordLines(recs), st)
  }

  lemma LoadFirst(rec: seq<octet>, rest: seq<seq<octet>>, st: LoadState)
    requires ValidState(st)
    ensures var s := ReadOneLine(Line(rec), st); LoadAll([rec] + rest, st) == if s.Continue? then LoadAll(rest, s.st) else s
  {
    hide ReadOneLine, Line;
    assert RecordLines([rec] + rest)[1..] == RecordLines(rest);
  }

  /** The end record, and the record of one byte 0xab at address 0x1234, character by character. */
  lemma RecordTexts()
    ensures Line(Record(1, 0, [])) == ":00000001FF"
    ensures Line(Record(0, 0x1234, [0xab])) == ":01123400AB0E"
  {
    hide HexAll, Hex2, Sum, Record;
    ExampleRecords();
    ExampleDigits();
    HeaderText(0, 0, 0, 1);
    HexAllLast([0, 0, 0, 1], 0xff);
    HeaderText(1, 0x12, 0x34, 0);
    HexAllLast([1, 0x12, 0x34, 0], 0xab);
    HexAllLast([1, 0x12, 0x34, 0] + [0xab], 0x0e);
  }

  lemma ExampleRecords()
    ensures Record(1, 0, []) == [0, 0, 0, 1] + [0xff]
    ensures Record(0, 0x1234, [0xab]) == [1, 0x12, 0x34, 0] + [0xab] + [0x0e]
  {
    hide Sum;
    HeaderSum(0, 0, 0, 1);
    HeaderSum(1, 0x12, 0x34, 0);
    SumLast([1, 0x12, 0x34, 0], 0xab);
    var none: seq<octet> := [];
    assert [0, 0, 0, 1] + none == [0, 0, 0, 1];
  }

  lemma ExampleDigits()
    ensures Hex2(0) == "00" && Hex2(1) == "01" && Hex2(0xff) == "FF" && Hex2(0x12) == "12"
    ensures Hex2(0x34) == "34" && Hex2(0xab) == "AB" && Hex2(0x0e) == "0E"
  {
  }

  lemma RecordsSplit(buf: seq<octet>, off: nat, nextaddr: nat, n64k: nat, recsize: nat)
    requires off <= |buf| && nextaddr < 0x1_0000 && 0 < recsize < 256
    ensures off == |buf| ==> Records(buf, off, nextaddr, n64k, recsize) == [Record(1, 0, [])] + []
    ensures off < |buf| ==>
      var n := Min(Min(recsize, |buf| - off), 0x1_0000 - nextaddr);
      && 0 < n < 256 && off + n <= |buf| && nextaddr + n <= 0x1_0000
      && Records(buf, off, nextaddr, n64k, recsize) == [Record(0, nextaddr, buf[off..off + n])] +
        if nextaddr + n == 0x1_0000
        then [AddressRecord(n64k + 1)] + Records(buf, off + n, 0, n64k + 1, recsize)
        else Records(buf, off + n, nextaddr + n, n64k, recsize)
  {
    hide Record;
  }

  /** Every record but the last is read without ending the load. */
  ghost predicate Continues(recs: seq<seq<octet>>, st: LoadState)
    requires ValidState(st)
  {
    |recs| <= 1 || (ReadOneLine(Line(recs[0]), st).Continue? && Continues(recs[1..], ReadOneLine(Line(recs[0]), st).st))
  }

  lemma ContinuesFirst(rec: seq<octet>, rest: seq<seq<octet>>, st: LoadState)
    requires ValidState(st)
    ensures rest == [] ==> Continues([rec] + rest, st)
    ensures ReadOneLine(Line(rec), st).Continue? && Continues(rest, ReadOneLine(Line(rec), st).st) ==> Continues([rec] + rest, st)
  {
    hide ReadOneLine, Line;
    assert ([rec] + rest)[1..] == rest;
  }

  lemma {:induction false} LoadRecords(buf: seq<octet>, tags: seq<bool>, mem: seq<octet>, off: nat, nextaddr: nat,
                                       n64k: nat, recsize: nat, st: LoadState)
    requires Loaded(st, buf, tags, mem, off, n64k) && |buf| < 0x8000_0000
    requires off == n64k * 0x1_0000 + nextaddr && nextaddr < 0x1_0000 && 0 < recsize < 256
    ensures var s := LoadAll(Records(buf, off, nextaddr, n64k, recsize), st);
      && s.Finish? && s.rc == |buf|
      && s.st.buf == buf + mem[|buf|..]
      && s.st.tags == seq(|buf|, _ => true) + tags[|buf|..]
    ensures Continues(Records(buf, off, nextaddr, n64k, recsize), st)
    decreases |buf| - off
  {
    hide ReadOneLine, Line, Records, Record, AddressRecord, LoadAll, Min, Continues;
    RecordsSplit(buf, off, nextaddr, n64k, recsize);
    if off == |buf| {
      LoadFirst(Record(1, 0, []), [], st);
      ContinuesFirst(Record(1, 0, []), [], st);
      EndRead(st);
      assert buf[..off] == buf;
    } else {
      var n := Min(Min(recsize, |buf| - off), 0x1_0000 - nextaddr);
      var here := Record(0, nextaddr, buf[off..off + n]);
      DataRead(st, buf, tags, mem, off, n64k, nextaddr, n);
      var st1 := ReadOneLine(Line(here), st).st;
      if nextaddr + n == 0x1_0000 {
        var rest := Records(buf, off + n, 0, n64k + 1, recsize);
        LoadFirst(here, [AddressRecord(n64k + 1)] + rest, st);
        ContinuesFirst(here, [AddressRecord(n64k + 1)] + rest, st);
        AddressRead(st1, buf, tags, mem, off + n, n64k, n64k + 1);
        LoadFirst(AddressRecord(n64k + 1), rest, st1);
        ContinuesFirst(AddressRecord(n64k + 1), rest, st1);
        LoadRecords(buf, tags, mem, off + n, 0, n64k + 1, recsize, ReadOneLine(Line(AddressRecord(n64k + 1)), st1).st);
      } else {
        var rest := Records(buf, off + n, nextaddr + n, n64k, recsize);
        LoadFirst(here, rest, st);
        ContinuesFirst(here, rest, st);
        LoadRecords(buf, tags, mem, off + n, nextaddr + n, n64k, recsize, st1);
      }
    }
  }

  // ----- the other records

  /** An extended segment address record sets the base to sixteen times its word, and nothing else
      that later data records depend on. */
  lemma SegmentAddress(st: LoadState, addr: nat, word: nat)
    requires ValidState(st) && addr < 0x1_0000 && word < 0x1_0000
    ensures var s := ReadOneLine(Line(Record(2, addr, [word / 256, word % 256])), st);
      s.Continue? && s.st == st.(base := word * 16, data := s.st.data)
  {
    hide Line, ReadRec, Record;
    var data: seq<octet> := [word / 256, word % 256];
    LineStarts(Record(2, addr, data));
    RecordRead(2, addr, data);
    BlockBytes(word);
  }

  /** A data record stores its bytes at the base plus its load offset. */
  lemma DataAtBase(st: LoadState, addr: nat, data: seq<octet>)
    requires ValidState(st) && addr < 0x1_0000 && |data| < 256
    requires st.base + addr + |data| <= |st.buf| < UINT_RANGE
    ensures var s := ReadOneLine(Line(Record(0, addr, data)), st);
      var at := st.base + addr;
      && s.Continue? && s.st.base == st.base && |s.st.buf| == |st.buf| && |s.st.tags| == |st.tags|
      && (forall k | 0 <= k < |st.buf| ::
            if at <= k < at + |data| then s.st.buf[k] == data[k - at] && s.st.tags[k]
            else s.st.buf[k] == st.buf[k] && s.st.tags[k] == st.tags[k])
      && s.st.max == Max(st.max, at + |data|)
  {
    hide Line, ReadRec, Record, Store;
    NoWrap(st.base + addr, |data|, |st.buf|);
    LineStarts(Record(0, addr, data));
    RecordRead(0, addr, data);
    var st1 := st.(data := data + st.data[|data|..]);
    assert ReadOneLine(Line(Record(0, addr, data)), st) == Continue(Store(st1, st.base + addr, data));
    StoredAt(st1, st.base + addr, data);
  }

  lemma StoredAt(st: LoadState, at: nat, data: seq<octet>)
    requires ValidState(st) && at + |data| <= |st.buf|
    ensures var r := Store(st, at, data);
      && r.base == st.base && |r.buf| == |st.buf| && |r.tags| == |st.tags|
      && (forall k | 0 <= k < |st.buf| ::
            if at <= k < at + |data| then r.buf[k] == data[k - at] && r.tags[k]
            else r.buf[k] == st.buf[k] && r.tags[k] == st.tags[k])
      && r.max == Max(st.max, at + |data|)
  {
  }

  /** Start address records are skipped, and types above 5 are refused. */
  lemma OtherTypes(st: LoadState, rectyp: octet, addr: nat, data: seq<octet>)
    requires ValidState(st) && addr < 0x1_0000 && |data| < 256 && (rectyp == 3 || rectyp >= 5)
    ensures var s := ReadOneLine(Line(Record(rectyp, addr, data)), st);
      if rectyp <= 5 then s.Continue? && s.st == st.(data := s.st.data)
      else s.Finish? && s.rc == -1 && s.st.buf == st.buf && s.st.tags == st.tags
  {
    hide Line, ReadRec, Record;
    LineStarts(Record(rectyp, addr, data));
    RecordRead(rectyp, addr, data);
  }

  /** A text whose end record is missing loads the same bytes; only a file without any data is an error then. */
  lemma {:induction false} WithoutEnd(recs: seq<seq<octet>>, st: LoadState)
    requires ValidState(st) && recs != [] && recs[|recs| - 1] == Record(1, 0, []) && Continues(recs, st)
    ensures var whole, cut := LoadAll(recs, st), LoadAll(recs[..|recs| - 1], st);
      && whole.Finish? && cut.Finish?
      && cut.st.buf == whole.st.buf && cut.st.tags == whole.st.tags
      && cut.rc == if whole.rc == 0 then -1 else whole.rc
    decreases |recs|
  {
    hide ReadOneLine, Line, Record;
    var n := |recs| - 1;
    if n == 0 {
      assert recs == [Record(1, 0, [])] + [];
      LoadFirst(Record(1, 0, []), [], st);
      EndRead(st);
      assert RecordLines(recs[..0]) == [];
    } else {
      var rest := recs[1..];
      assert recs == [recs[0]] + rest && recs[..n] == [recs[0]] + rest[..n - 1];
      LoadFirst(recs[0], rest, st);
      LoadFirst(recs[0], rest[..n - 1], st);
      WithoutEnd(rest, ReadOneLine(Line(recs[0]), st).st);
    }
  }

  /** What b2ihex prints, without its last line, is still read back; the empty file is an error. */
  lemma MissingEndRecord(buf: seq<octet>, recsize: nat, mem: seq<octet>, tags: seq<bool>, data: seq<octet>)
    requires 0 < recsize < 256 && |buf| < 0x8000_0000 && |buf| <= |mem| == |tags| && |data| == IHEX_MAXDATA
    ensures var recs := Records(buf, 0, 0, 0, recsize);
      recs != [] &&
      var s := LoadAll(recs[..|recs| - 1], LoadState(mem, tags, 0, 0, data));
      && s.Finish? && s.rc == (if buf == [] then -1 else |buf|)
      && s.st.buf == buf + mem[|buf|..]
      && s.st.tags == seq(|buf|, _ => true) + tags[|buf|..]
  {
    hide LoadAll, Record, Records, Continues;
    var st := LoadState(mem, tags, 0, 0, data);
    LoadRecords(buf, tags, mem, 0, 0, 0, recsize, st);
    LastIsEnd(buf, 0, 0, 0, recsize);
    WithoutEnd(Records(buf, 0, 0, 0, recsize), st);
  }

  lemma {:induction false} LastIsEnd(buf: seq<octet>, off: nat, nextaddr: nat, n64k: nat, recsize: nat)
    requires off <= |buf| && nextaddr < 0x1_0000 && 0 < recsize < 256
    ensures var recs := Records(buf, off, nextaddr, n64k, recsize); recs != [] && recs[|recs| - 1] == Record(1, 0, [])
    decreases |buf| - off
  {
    hide Record, Records, Min, AddressRecord;
    RecordsSplit(buf, off, nextaddr, n64k, recsize);
    if off < |buf| {
      var n := Min(Min(recsize, |buf| - off), 0x1_0000 - nextaddr);
      if nextaddr + n == 0x1_0000 {
        LastIsEnd(buf, off + n, 0, n64k + 1, recsize);
      } else {
        LastIsEnd(buf, off + n, nextaddr + n, n64k, recsize);
      }
    }
  }

  // ----- the shape of the records

  /** The length byte is right, the bytes sum to zero, and the data stay inside one
      block of 64 KiB. */
  predicate GoodRecord(rec: seq<octet>, recsize: nat) {
    && 5 <= |rec| <= Max(recsize, 2) + 5
    && rec[0] == |rec| - 5
    && Sum(rec) % 256 == 0
    && Word(rec[1], rec[2]) + rec[0] <= 0x1_0000
  }

  lemma RecordIsGood(rectyp: octet, addr: nat, data: seq<octet>, recsize: nat)
    requires |data| < 256 && |data| <= Max(recsize, 2) && addr + |data| <= 0x1_0000 && addr < 0x1_0000
    ensures GoodRecord(Record(rectyp, addr, data), recsize)
  {
    hide Sum, Checksum;
    RecordSums(rectyp, addr, data);
    assert Word(addr / 256, addr % 256) == addr;
  }

  lemma {:induction false} RecordsAreGood(buf: seq<octet>, off: nat, nextaddr: nat, n64k: nat, recsize: nat, k: nat)
    requires off <= |buf| && nextaddr < 0x1_0000 && 0 < recsize < 256
    requires k < |Records(buf, off, nextaddr, n64k, recsize)|
    ensures GoodRecord(Records(buf, off, nextaddr, n64k, recsize)[k], recsize)
    decreases |buf| - off
  {
    hide GoodRecord, Record, Records, Min;
    RecordsSplit(buf, off, nextaddr, n64k, recsize);
    if off == |buf| {
      RecordIsGood(1, 0, [], recsize);
    } else {
      var n := Min(Min(recsize, |buf| - off), 0x1_0000 - nextaddr);
      AtMostRecsize(recsize, |buf| - off, 0x1_0000 - nextaddr);
      RecordIsGood(0, nextaddr, buf[off..off + n], recsize);
      RecordIsGood(4, 0, [(n64k + 1) / 256 % 256, (n64k + 1) % 256], recsize);
      if nextaddr + n == 0x1_0000 {
        if k >= 2 {
          RecordsAreGood(buf, off + n, 0, n64k + 1, recsize, k - 2);
        }
      } else if k >= 1 {
        RecordsAreGood(buf, off + n, nextaddr + n, n64k, recsize, k - 1);
      }
    }
  }

  lemma AtMostRecsize(recsize: nat, left: nat, room: nat)
    ensures Min(Min(recsize, left), room) <= recsize
  {
  }

  // ----- one wrong byte

  /** The record with byte j changed to v. */
  function WithByte(rec: seq<octet>, j: nat, v: octet): (r: seq<octet>)
    requires j < |rec|
    ensures |r| == |rec|
  {
    rec[j := v]
  }

  lemma LengthByteKept(rec: seq<octet>, j: nat, v: octet)
    requires 1 <= j < |rec|
    ensures WithByte(rec, j, v)[0] == rec[0]
  {
  }

  /** A record with one byte after the length changed stops the load. */
  lemma WrongByteSeen(rec: seq<octet>, recsize: nat, j: nat, v: octet, st: LoadState)
    requires GoodRecord(rec, recsize) && 1 <= j < |rec| && v != rec[j] && ValidState(st)
    ensures ReadOneLine(Line(WithByte(rec, j, v)), st) == Finish(st, -1)
  {
    hide Line, ReadRec, Checksum, Sum;
    var bad := WithByte(rec, j, v);
    SumOfUpdate(rec, j, v);
    NotZeroAnyMore(Sum(rec), rec[j], v);
    ReadLine(bad);
    LineStarts(bad);
    ChecksumTells(bad[..|bad| - 1], bad[|bad| - 1]);
    assert bad[..|bad| - 1] + [bad[|bad| - 1]] == bad;
  }

  lemma NotZeroAnyMore(s: int, old_: octet, new_: octet)
    requires s % 256 == 0 && old_ != new_
    ensures (s - old_ + new_) % 256 != 0
  {
  }

  lemma {:induction false} WrongRecordSeen(recs: seq<seq<octet>>, recsize: nat, k: nat, j: nat, v: octet, st: LoadState)
    requires ValidState(st) && Continues(recs, st)
    requires k < |recs| && GoodRecord(recs[k], recsize) && 1 <= j < |recs[k]| && v != recs[k][j]
    ensures var s := LoadAll(recs[k := WithByte(recs[k], j, v)], st); s.Finish? && s.rc == -1
    decreases k
  {
    hide ReadOneLine, Line, LoadAll, GoodRecord;
    var bad := WithByte(recs[k], j, v);
    if k == 0 {
      WrongByteSeen(recs[0], recsize, j, v, st);
      LoadFirst(bad, recs[1..], st);
      assert recs[0 := bad] == [bad] + recs[1..];
    } else {
      var st1 := ReadOneLine(Line(recs[0]), st).st;
      WrongRecordSeen(recs[1..], recsize, k - 1, j, v, st1);
      LoadFirst(recs[0], recs[1..][k - 1 := bad], st);
      assert recs[k := bad] == [recs[0]] + recs[1..][k - 1 := bad];
    }
  }

  // ----- the text

  /** What b2ihex prints. */
  function HexText(buf: seq<octet>, recsize: nat): string
    requires 0 < recsize < 256
  {
    Joined(RecordLines(Records(buf, 0, 0, 0, recsize)))
  }

  /** The memory before the load. */
  function Fresh(mem: seq<octet>, tags: seq<bool>, data: seq<octet>): LoadState {
    LoadState(mem, tags, 0, 0, data)
  }

  lemma LineShape(rec: seq<octet>)
    ensures '\n' !in Line(rec) && |Line(rec)| == 2 * |rec| + 1
  {
    HexAllUpper(rec);
    UpperHexHasNoNewline(HexAll(rec));
  }

  /** The most data bytes that a line may hold and still be read by fgets in one piece. */
  const LONGEST: nat := 122

  predicate Fits(recs: seq<seq<octet>>) {
    forall k | 0 <= k < |recs| :: |recs[k]| <= LONGEST + 5
  }

  /** Lines that fit are read as they were printed; a full one is followed by an empty
      line, which is skipped. */
  lemma {:induction false} LoadPrinted(recs: seq<seq<octet>>, st: LoadState)
    requires Fits(recs) && ValidState(st)
    ensures Load(Lines(Joined(RecordLines(recs))), st) == LoadAll(recs, st)
    decreases |recs|
  {
    hide Line, ReadOneLine, Lines, Joined, RecordLines;
    if recs == [] {
      NothingJoined();
      NoLines();
      assert RecordLines([]) == [];
    } else {
      var rec, rest := recs[0], recs[1..];
      assert recs == [rec] + rest;
      JoinedFirst(rec, rest);
      LineShape(rec);
      LoadFirst(rec, rest, st);
      var more := Joined(RecordLines(rest));
      var s := ReadOneLine(Line(rec), st);
      if s.Continue? {
        LoadPrinted(rest, s.st);
      }
      if |rec| == LONGEST + 5 {
        FullLine(Line(rec), more);
        LoadNext(Line(rec), [""] + Lines(more), st);
        if s.Continue? {
          LoadNext("", Lines(more), s.st);
          EmptyLine(s.st);
        }
      } else {
        FirstLine(Line(rec), more);
        LoadNext(Line(rec), Lines(more), st);
      }
    }
  }

  lemma EmptyLine(st: LoadState)
    requires ValidState(st)
    ensures ReadOneLine("", st) == Continue(st)
  {
  }

  lemma RecordsFit(buf: seq<octet>, recsize: nat)
    requires 0 < recsize < 256 && (recsize <= LONGEST || |buf| <= LONGEST)
    ensures Fits(Records(buf, 0, 0, 0, recsize))
  {
    hide Records, Sum;
    if recsize > LONGEST {
      SmallBuffer(buf, recsize);
    }
    forall k | 0 <= k < |Records(buf, 0, 0, 0, recsize)|
      ensures |Records(buf, 0, 0, 0, recsize)[k]| <= LONGEST + 5
    {
      if recsize <= LONGEST {
        RecordsAreGood(buf, 0, 0, 0, recsize, k);
      } else {
        RecordsAreGood(buf, 0, 0, 0, LONGEST, k);
      }
    }
  }

  lemma SmallBuffer(buf: seq<octet>, recsize: nat)
    requires |buf| <= LONGEST < recsize < 256
    ensures Records(buf, 0, 0, 0, recsize) == Records(buf, 0, 0, 0, LONGEST)
  {
    hide Record;
    RecordsSplit(buf, 0, 0, 0, recsize);
    RecordsSplit(buf, 0, 0, 0, LONGEST);
    RecordsSplit(buf, |buf|, |buf|, 0, recsize);
    RecordsSplit(buf, |buf|, |buf|, 0, LONGEST);
  }

  /** A longer line is cut before its checksum, which is an error. */
  lemma CutRecord(rec: seq<octet>, st: LoadState)
    requires LONGEST + 5 < |rec| < 261 && rec[0] == |rec| - 5 && ValidState(st)
    ensures ReadOneLine(Line(rec)[..MAX_LINE_LEN - 1], st) == Finish(st, -1)
  {
    hide HexField, HexAll, ReadBytes;
    var line := Line(rec);
    var cut := line[..MAX_LINE_LEN - 1];
    LineByte(":", rec, 0);
    assert cut[1..3] == line[1..3];
    assert ByteField(cut, 1) == Some(rec[0]);
    var n: nat := rec[0];
    assert ByteField(cut, 9 + 2 * n).None?;
  }

  lemma LongFirstFails(recs: seq<seq<octet>>, st: LoadState)
    requires recs != [] && LONGEST + 5 < |recs[0]| < 261 && recs[0][0] == |recs[0]| - 5 && ValidState(st)
    ensures Load(Lines(Joined(RecordLines(recs))), st) == Finish(st, -1)
  {
    hide Lines, Line, ReadOneLine, Joined, RecordLines;
    var rec, rest := recs[0], recs[1..];
    assert recs == [rec] + rest;
    JoinedFirst(rec, rest);
    LineShape(rec);
    LongLine(Line(rec), Joined(RecordLines(rest)));
    CutRecord(rec, st);
    var lines := Lines(Joined(RecordLines(recs)));
    assert lines == [lines[0]] + lines[1..];
    LoadNext(lines[0], lines[1..], st);
  }

  lemma FirstIsLong(buf: seq<octet>, recsize: nat)
    requires LONGEST < recsize < 256 && LONGEST < |buf|
    ensures var recs := Records(buf, 0, 0, 0, recsize);
      recs != [] && LONGEST + 5 < |recs[0]| < 261 && recs[0][0] == |recs[0]| - 5
  {
    hide Records;
    RecordsSplit(buf, 0, 0, 0, recsize);
  }

  /** Reading back what b2ihex printed: the size is returned, every byte is restored and
      exactly those bytes are tagged, if and only if every line fits the reader's buffer. */
  lemma HexRoundTrip(buf: seq<octet>, recsize: nat, mem: seq<octet>, tags: seq<bool>, data: seq<octet>)
    requires 0 < recsize < 256 && |buf| < 0x8000_0000
    requires |buf| <= |mem| == |tags| && |data| == IHEX_MAXDATA
    ensures var s := Load(Lines(HexText(buf, recsize)), Fresh(mem, tags, data));
      if recsize <= LONGEST || |buf| <= LONGEST then
        && s.Finish? && s.rc == |buf|
        && s.st.buf == buf + mem[|buf|..]
        && s.st.tags == seq(|buf|, _ => true) + tags[|buf|..]
      else s == Finish(s.st, -1)
  {
    hide Records, Lines, Load, Joined;
    if recsize <= LONGEST || |buf| <= LONGEST {
      RecordsFit(buf, recsize);
      LoadPrinted(Records(buf, 0, 0, 0, recsize), Fresh(mem, tags, data));
      LoadRecords(buf, tags, mem, 0, 0, 0, recsize, Fresh(mem, tags, data));
    } else {
      FirstIsLong(buf, recsize);
      LongFirstFails(Records(buf, 0, 0, 0, recsize), Fresh(mem, tags, data));
    }
  }

  /** Changing one address, type, data or checksum byte of any record makes the load fail. */
  lemma WrongByteIsDetected(buf: seq<octet>, recsize: nat, mem: seq<octet>, tags: seq<bool>, data: seq<octet>,
                            k: nat, j: nat, v: octet)
    requires 0 < recsize < 256 && |buf| < 0x8000_0000
    requires |buf| <= |mem| == |tags| && |data| == IHEX_MAXDATA
    requires var recs := Records(buf, 0, 0, 0, recsize); k < |recs| && 1 <= j < |recs[k]| && v != recs[k][j]
    ensures var recs := Records(buf, 0, 0, 0, recsize);
      var s := Load(Lines(Joined(RecordLines(recs[k := WithByte(recs[k], j, v)]))), Fresh(mem, tags, data));
      s.Finish? && s.rc == -1
  {
    hide Records, Lines, Load, Joined, RecordLines, GoodRecord, Continues;
    var recs := Records(buf, 0, 0, 0, recsize);
    if recsize <= LONGEST || |buf| <= LONGEST {
      RecordsFit(buf, recsize);
      RecordsAreGood(buf, 0, 0, 0, recsize, k);
      LoadPrinted(recs[k := WithByte(recs[k], j, v)], Fresh(mem, tags, data));
      LoadRecords(buf, tags, mem, 0, 0, 0, recsize, Fresh(mem, tags, data));
      WrongRecordSeen(recs, recsize, k, j, v, Fresh(mem, tags, data));
    } else {
      FirstIsLong(buf, recsize);
      LengthByteKept(recs[k], j, v);
      LongFirstFails(recs[k := WithByte(recs[k], j, v)], Fresh(mem, tags, data));
    }
  }

  // ----- the writer

  /** Prints one record of type rectyp with the bytes inbuf[off..off + n). */
  method PrintRecord(inbuf: array<octet>, off: nat, n: nat, nextaddr: nat, rectyp: octet) returns (line: string)
    requires off + n <= inbuf.Length && n < 256 && nextaddr < 0x1_0000
    ensures line == Line(Record(rectyp, nextaddr, inbuf[off..off + n])) + "\n"
  {
    hide ByteSum, Hex2, HexAll, Plus, Negated, High, Low;
    ghost var head := [n, High(nextaddr), Low(nextaddr), rectyp];
    HeaderText(n, High(nextaddr), Low(nextaddr), rectyp);
    HeaderByteSum(n, High(nextaddr), Low(nextaddr), rectyp);
    line := ":" + Hex2(n) + (Hex2(High(nextaddr)) + Hex2(Low(nextaddr))) + Hex2(rectyp);
    var cksum := Plus(Plus(Plus(n, High(nextaddr)), Low(nextaddr)), rectyp);
    assert inbuf[off..off] == [] && head + [] == head;
    var i := 0;
    while i < n
      invariant 0 <= i <= n
      invariant line == ":" + HexAll(head + inbuf[off..off + i])
      invariant cksum == ByteSum(head + inbuf[off..off + i])
    {
      var b := inbuf[off + i];
      OneMore(head, inbuf[off..off + i], b);
      assert inbuf[off..off + i] + [b] == inbuf[off..off + i + 1];
      line := line + Hex2(b);
      cksum := Plus(cksum, b);
      i := i + 1;
    }
    cksum := Negated(cksum);
    HexAllLast(head + inbuf[off..off + n], cksum);
    line := line + Hex2(cksum) + "\n";
    RecordBytes(rectyp, nextaddr, inbuf[off..off + n]);
  }

  lemma RecordBytes(rectyp: octet, addr: nat, data: seq<octet>)
    requires addr < 0x1_0000 && |data| < 256
    ensures var body := [|data|, High(addr), Low(addr), rectyp] + data;
      Record(rectyp, addr, data) == body + [Negated(ByteSum(body))]
  {
  }

  lemma JoinedFirst(rec: seq<octet>, recs: seq<seq<octet>>)
    ensures Joined(RecordLines([rec] + recs)) == Line(rec) + "\n" + Joined(RecordLines(recs))
  {
    hide Line;
    assert RecordLines([rec] + recs)[1..] == RecordLines(recs);
  }

  lemma NothingJoined()
    ensures Joined(RecordLines([])) == ""
  {
  }

  /** The text of the records that are still to be printed. */
  function TextFrom(buf: seq<octet>, off: nat, nextaddr: nat, n64k: nat, recsize: nat): string
    requires off <= |buf| && nextaddr < 0x1_0000 && 0 < recsize < 256
  {
    Joined(RecordLines(Records(buf, off, nextaddr, n64k, recsize)))
  }

  lemma JoinedRecords(buf: seq<octet>, off: nat, nextaddr: nat, n64k: nat, recsize: nat)
    requires off <= |buf| && nextaddr < 0x1_0000 && 0 < recsize < 256
    ensures off == |buf| ==> TextFrom(buf, off, nextaddr, n64k, recsize) == Line(Record(1, 0, [])) + "\n"
    ensures off < |buf| ==>
      var n := Min(Min(recsize, |buf| - off), 0x1_0000 - nextaddr);
      && 0 < n < 256 && off + n <= |buf| && nextaddr + n <= 0x1_0000
      && TextFrom(buf, off, nextaddr, n64k, recsize) == Line(Record(0, nextaddr, buf[off..off + n])) + "\n" +
        if nextaddr + n == 0x1_0000
        then Line(AddressRecord(n64k + 1)) + "\n" + TextFrom(buf, off + n, 0, n64k + 1, recsize)
        else TextFrom(buf, off + n, nextaddr + n, n64k, recsize)
  {
    hide Line, Record, AddressRecord, Records, RecordLines, Min, Joined;
    RecordsSplit(buf, off, nextaddr, n64k, recsize);
    if off == |buf| {
      JoinedFirst(Record(1, 0, []), []);
      NothingJoined();
    } else {
      var n := Min(Min(recsize, |buf| - off), 0x1_0000 - nextaddr);
      var here := Record(0, nextaddr, buf[off..off + n]);
      if nextaddr + n == 0x1_0000 {
        var rest := Records(buf, off + n, 0, n64k + 1, recsize);
        JoinedFirst(here, [AddressRecord(n64k + 1)] + rest);
        JoinedFirst(AddressRecord(n64k + 1), rest);
      } else {
        JoinedFirst(here, Records(buf, off + n, nextaddr + n, n64k, recsize));
      }
    }
  }

  /** text is printed, the rest is to come. */
  ghost predicate Printed(text: string, buf: seq<octet>, off: nat, nextaddr: nat, n64k: nat, recsize: nat)
    requires off <= |buf| && nextaddr < 0x1_0000 && 0 < recsize < 256
  {
    text + TextFrom(buf, off, nextaddr, n64k, recsize) == HexText(buf, recsize)
  }

  lemma PrintedNothing(buf: seq<octet>, recsize: nat)
    requires 0 < recsize < 256
    ensures Printed("", buf, 0, 0, 0, recsize)
  {
  }

  lemma PrintedNext(text: string, buf: seq<octet>, off: nat, nextaddr: nat, n64k: nat, recsize: nat)
    requires off < |buf| && nextaddr < 0x1_0000 && 0 < recsize < 256 && Printed(text, buf, off, nextaddr, n64k, recsize)
    ensures var n := Min(Min(recsize, |buf| - off), 0x1_0000 - nextaddr);
      && 0 < n < 256 && off + n <= |buf| && nextaddr + n <= 0x1_0000
      && var here := text + (Line(Record(0, nextaddr, buf[off..off + n])) + "\n");
      if nextaddr + n == 0x1_0000
      then Printed(here + (Line(AddressRecord(n64k + 1)) + "\n"), buf, off + n, 0, n64k + 1, recsize)
      else Printed(here, buf, off + n, nextaddr + n, n64k, recsize)
  {
    hide TextFrom, HexText, Line, Record, AddressRecord, Min;
    JoinedRecords(buf, off, nextaddr, n64k, recsize);
  }

  lemma PrintedAll(text: string, buf: seq<octet>, nextaddr: nat, n64k: nat, recsize: nat)
    requires nextaddr < 0x1_0000 && 0 < recsize < 256 && Printed(text, buf, |buf|, nextaddr, n64k, recsize)
    ensures text + (Line(Record(1, 0, [])) + "\n") == HexText(buf, recsize)
  {
    hide TextFrom, HexText, Line, Record;
    JoinedRecords(buf, |buf|, nextaddr, n64k, recsize);
  }

  /** b2ihex with start address 0; text is what it prints. */
  method B2ihex(inbuf: array<octet>, bufsize: nat, recsize: int) returns (text: string, rc: int)
    requires recsize > 0 && bufsize <= inbuf.Length
    ensures recsize > 255 ==> rc == -1 && text == ""
    ensures recsize <= 255 ==> rc == bufsize && text == HexText(inbuf[..bufsize], recsize)
  {
    hide Printed, HexText, Line, Record, AddressRecord, Min;
    text := "";
    if recsize > 255 {
      return text, -1;
    }
    ghost var all := inbuf[..bufsize];
    PrintedNothing(all, recsize);
    var n64k, nextaddr, off, left := 0, 0, 0, bufsize;
    while left > 0
      invariant 0 <= off <= off + left == bufsize && 0 <= nextaddr < 0x1_0000 && 0 <= n64k
      invariant Printed(text, all, off, nextaddr, n64k, recsize)
      decreases left
    {
      var n := recsize;
      if n > left {
        n := left;
      }
      if nextaddr + n > 0x1_0000 {
        n := 0x1_0000 - nextaddr;
      }
      MinMin(recsize, left, 0x1_0000 - nextaddr);
      PrintedNext(text, all, off, nextaddr, n64k, recsize);
      if n > 0 {
        var line := PrintRecord(inbuf, off, n, nextaddr, 0);
        assert inbuf[off..off + n] == all[off..off + n];
        text := text + line;
        nextaddr := nextaddr + n;
      }
      if nextaddr >= 0x1_0000 {
        n64k := n64k + 1;
        var line := PrintAddressRecord(n64k);
        text := text + line;
        nextaddr := 0;
      }
      off := off + n;
      left := left - n;
    }
    PrintedAll(text, all, nextaddr, n64k, recsize);
    var line := PrintRecord(inbuf, 0, 0, 0, 1);
    assert inbuf[0..0] == [];
    text := text + line;
    rc := off;
  }

  lemma MinMin(recsize: nat, left: nat, room: nat)
    ensures Min(Min(recsize, left), room) == if recsize <= left && recsize <= room then recsize else if left <= room then left else room
  {
  }

  method PrintAddressRecord(n64k: nat) returns (line: string)
    ensures line == Line(AddressRecord(n64k)) + "\n"
  {
    hide Hex2, HexAll, ByteSum, Plus, Negated;
    var lo, hi := n64k % 256, n64k / 256 % 256;
    line := ":02000004" + Hex2(hi) + Hex2(lo);
    var cksum := Plus(Plus(Plus(Plus(2, 0), 4), hi), lo);
    cksum := Negated(cksum);
    line := line + Hex2(cksum) + "\n";
    AddressText(hi, lo);
  }

  lemma AddressText(hi: octet, lo: octet)
    ensures Line(Record(4, 0, [hi, lo])) ==
      ":02000004" + Hex2(hi) + Hex2(lo) + Hex2(Negated(Plus(Plus(Plus(Plus(2, 0), 4), hi), lo)))
  {
    hide Sum, HexAll, Negated, ByteSum, Plus, Record, Hex2;
    var head: seq<octet> := [2, 0, 0, 4];
    AddressHeader();
    TwoMore(head, hi, lo);
    RecordBytes(4, 0, [hi, lo]);
    HexAllLast(head + [hi, lo], Checksum(head + [hi, lo]));
  }

  lemma AddressHeader()
    ensures HexAll([2, 0, 0, 4]) == "02000004" && ByteSum([2, 0, 0, 4]) == Plus(Plus(2, 0), 4)
    ensures High(0) == Low(0) == 0
  {
    hide ByteSum, HexAll;
    HeaderText(2, 0, 0, 4);
    HeaderByteSum(2, 0, 0, 4);
  }

  // ----- the reader

  datatype Header = Header(reclen: octet, loadofs: nat, rectyp: octet, cksum: octet)

  /** ihex_readrec: the data bytes go to the front of data. */
  method IhexReadrec(rec: string, data: array<octet>) returns (rc: int, h: Header)
    requires data.Length == IHEX_MAXDATA
    modifies data
    ensures rc < 0 <==> ReadRec(rec).None?
    ensures ReadRec(rec).Some? ==>
      var r := ReadRec(rec).value;
      && h == Header(|r.data|, r.loadofs, r.rectyp, r.cksum)
      && rc == r.computed
      && data[..] == r.data + old(data[|r.data|..])
  {
    hide Field, ByteSum, Plus, Negated, ReadBytes;
    h := Header(0, 0, 0, 0);
    rc := -1;
    var ok, v := ParseField(rec, 1, 2);
    if !ok { return; }
    var reclen := v % 256;
    ok, v := ParseField(rec, 3, 4);
    if !ok { return; }
    var loadofs := v % 0x1_0000_0000;
    ok, v := ParseField(rec, 7, 2);
    if !ok { return; }
    var rectyp := v % 256;
    ghost var head := [reclen, High(loadofs), Low(loadofs), rectyp];
    HeaderByteSum(reclen, High(loadofs), Low(loadofs), rectyp);
    var cksum := Plus(Plus(Plus(reclen, High(loadofs)), Low(loadofs)), rectyp);
    ok, cksum := ReadData(rec, 9, reclen, data, cksum, head);
    if !ok { return; }
    ok, v := ParseField(rec, 9 + 2 * reclen, 2);
    if !ok { return; }
    h := Header(reclen, loadofs, rectyp, v % 256);
    rc := Negated(cksum);
    assert data[..] == data[..reclen] + old(data[reclen..]);
  }

  /** The body of the loop of ihex2b after fgets. */
  method TakeLine(line: string, buf: array<octet>, tags: array<bool>, data: array<octet>, base: nat, max: nat)
    returns (done: bool, overrun: bool, rc: int, baseaddr: nat, maxaddr: nat)
    requires buf.Length == tags.Length && data.Length == IHEX_MAXDATA && data != buf
    modifies buf, tags, data
    ensures var s := ReadOneLine(line, LoadState(old(buf[..]), old(tags[..]), base, max, old(data[..])));
      && done == !s.Continue? && overrun == s.Overrun?
      && (s.Finish? ==> rc == s.rc)
      && (done ==> buf[..] == s.st.buf && tags[..] == s.st.tags)
      && (!done ==> LoadState(buf[..], tags[..], baseaddr, maxaddr, data[..]) == s.st)
  {
    hide ReadRec, Wrapped, BoundsTest;
    done, overrun, rc, baseaddr, maxaddr := false, false, 0, base, max;
    if line == "" || line[0] != ':' {
      return;
    }
    var h;
    rc, h := IhexReadrec(line, data);
    if rc < 0 || rc != h.cksum {
      return true, false, -1, base, max;
    }
    assert data[..h.reclen] == ReadRec(line).value.data;
    match h.rectyp
    case 0 =>
      var v;
      v, maxaddr := StoreData(buf, tags, data, Wrapped(h.loadofs + baseaddr), h.reclen, max);
      if v == Refused {
        return true, false, -1, base, max;
      }
      if v == Outside {
        return true, true, 0, base, max;
      }
    case 1 =>
      return true, false, maxaddr, base, max;
    case 2 =>
      baseaddr := Word(data[0], data[1]) * 16;
    case 4 =>
      baseaddr := Word(data[0], data[1]) * 0x1_0000;
    case _ =>
      if h.rectyp != 3 && h.rectyp != 5 {
        return true, false, -1, base, max;
      }
  }

  lemma LoadNext(line: string, rest: seq<string>, st: LoadState)
    requires ValidState(st)
    ensures var s := ReadOneLine(line, st); Load([line] + rest, st) == if s.Continue? then Load(rest, s.st) else s
  {
    hide ReadOneLine;
  }

  /** ihex2b with file offset 0 and bufsize the size of the memory. */
  method Ihex2b(text: string, buf: array<octet>, tags: array<bool>, data: array<octet>) returns (rc: int, overrun: bool)
    requires buf.Length == tags.Length && data.Length == IHEX_MAXDATA && data != buf
    modifies buf, tags, data
    ensures var s := Load(Lines(text), Fresh(old(buf[..]), old(tags[..]), old(data[..])));
      && overrun == s.Overrun? && (s.Finish? ==> rc == s.rc)
      && buf[..] == s.st.buf && tags[..] == s.st.tags
  {
    hide ReadOneLine, Lines;
    overrun := false;
    var baseaddr, maxaddr, pos := 0, 0, 0;
    ghost var all := Load(Lines(text), Fresh(buf[..], tags[..], data[..]));
    assert text[0..] == text;
    while pos < |text|
      invariant 0 <= pos <= |text| && baseaddr >= 0 && maxaddr >= 0 && !overrun
      invariant Load(Lines(text[pos..]), LoadState(buf[..], tags[..], baseaddr, maxaddr, data[..])) == all
    {
      var line, next := Fgets(text, pos);
      LoadNext(line, Lines(text[next..]), LoadState(buf[..], tags[..], baseaddr, maxaddr, data[..]));
      var done;
      done, overrun, rc, baseaddr, maxaddr := TakeLine(line, buf, tags, data, baseaddr, maxaddr);
      if done {
        return;
      }
      pos := next;
    }
    assert text[pos..] == "";
    NoLines();
    rc := if maxaddr == 0 then -1 else maxaddr;
  }

}
