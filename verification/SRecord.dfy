/** Motorola S-record files: b2srec, srec_readrec and srec2b, with addresses of two and
    three bytes.  (M68000 Family Programmer's Reference Manual, Appendix C.) */
module SRecord {
  import opened Options
  import opened CText
  import opened HexRecords

  // ----- lines

  /** Byte k of an address, counted from the low end. */
  function ByteAt(addr: nat, k: nat): octet {
    if k == 0 then addr % 256
    else if k == 1 then addr / 0x100 % 256
    else if k == 2 then addr / 0x1_0000 % 256
    else addr / 0x100_0000 % 256
  }

  function AddressBytes(width: nat, addr: nat): (bs: seq<octet>)
    ensures |bs| == width
  {
    seq(width, k requires 0 <= k < width => ByteAt(addr, width - 1 - k))
  }

  /** The bytes that the checksum covers; the count is summed in an unsigned char. */
  function Body(width: nat, addr: nat, data: seq<octet>): seq<octet> {
    [(|data| + width + 1) % 256] + AddressBytes(width, addr) + data
  }

  function Complement(c: octet): octet {
    255 - c
  }

  function Bytes(width: nat, addr: nat, data: seq<octet>): seq<octet> {
    Body(width, addr, data) + [Complement(ByteSum(Body(width, addr, data)))]
  }

  /** %02X prints a third digit for a count above 255. */
  function Line(typ: char, width: nat, addr: nat, data: seq<octet>): string
    requires |data| < 256 && width <= 4
  {
    "S" + [typ] + (if |data| + width + 1 < 256 then "" else "1") + HexAll(Bytes(width, addr, data))
  }

  function DataLine(addr: nat, data: seq<octet>): string
    requires |data| < 256
  {
    if addr + |data| <= 0xffff then Line('1', 2, addr, data) else Line('2', 3, addr, data)
  }

  function EndLine(): string {
    Line('9', 2, 0, [])
  }

  /** The lines of buf from address addr on. */
  function SLines(buf: seq<octet>, addr: nat, recsize: nat): seq<string>
    requires addr <= |buf| && 0 < recsize < 256
    decreases |buf| - addr
  {
    if addr == |buf| then [EndLine()]
    else
      var n := Min(recsize, |buf| - addr);
      [DataLine(addr, buf[addr..addr + n])] + SLines(buf, addr + n, recsize)
  }

  /** What b2srec prints. */
  function SText(buf: seq<octet>, recsize: nat): string
    requires 0 < recsize < 256
  {
    Joined(SLines(buf, 0, recsize))
  }

  // ----- reading one line

  datatype Rec = Rec(rectyp: char, loadofs: nat, data: seq<octet>, cksum: octet, computed: octet)

  function AddressWidth(typ: char): (w: nat)
    ensures 2 <= w <= 4
  {
    if typ == '2' || typ == '8' then 3 else if typ == '3' || typ == '7' then 4 else 2
  }

  /** The count minus address and checksum, in an unsigned char. */
  function DataCount(len: octet, width: nat): octet {
    (len - width - 1) % 256
  }

  function ReadRest(rec: string, len: octet, loadofs: nat): (r: Option<Rec>)
    requires |rec| >= 2
    ensures r.Some? ==> |r.value.data| < 256 && r.value.loadofs == loadofs
  {
    var w := AddressWidth(rec[1]);
    var n: nat := DataCount(len, w);
    match (ReadBytes(rec, 4 + 2 * w, n), ByteField(rec, 4 + 2 * w + 2 * n))
    case (Some(data), Some(ck)) =>
      Some(Rec(rec[1], loadofs, data, ck, Complement(ByteSum([len] + AddressBytes(w, loadofs) + data))))
    case _ => None
  }

  /** What srec_readrec makes of a line.  The length test before the address only asks for
      half its digits, but a line that ends inside the address fails at the next test. */
  function ReadRec(rec: string): (r: Option<Rec>)
    ensures r.Some? ==> |r.value.data| < 256 && r.value.loadofs < UINT_RANGE
  {
    if |rec| < 2 then None
    else
      var w := AddressWidth(rec[1]);
      match (ByteField(rec, 2), Field(rec, 4, 2 * w))
      case (Some(len), Some(ofs)) => ReadRest(rec, len, ofs % 0x1_0000_0000)
      case _ => None
  }

  // ----- reading a file

  /** Memory image, tags, highest address, and number of data records. */
  datatype LoadState = LoadState(buf: seq<octet>, tags: seq<bool>, max: nat, reccount: nat)

  predicate ValidState(st: LoadState) {
    |st.buf| == |st.tags|
  }

  /** Overrun: the bounds test was passed by a sum that wrapped around, and the store that follows
      is outside the memory; nothing is said of the program after that. */
  datatype Step = Continue(st: LoadState) | Finish(st: LoadState, rc: int) | Overrun(st: LoadState)

  function Store(st: LoadState, at: nat, data: seq<octet>): (r: LoadState)
    requires ValidState(st) && at + |data| <= |st.buf|
    ensures ValidState(r)
  {
    LoadState(st.buf[..at] + data + st.buf[at + |data|..],
              st.tags[..at] + seq(|data|, _ => true) + st.tags[at + |data|..],
              if at + |data| > st.max then at + |data| else st.max,
              st.reccount + 1)
  }

  function UseRecord(r: Rec, st: LoadState): (s: Step)
    requires ValidState(st)
    ensures ValidState(s.st)
  {
    match r.rectyp
    case '0' => Continue(st)
    case '5' => if r.loadofs != st.reccount then Finish(st, -1) else Continue(st)
    case _ =>
      if '1' <= r.rectyp <= '3' then
        if !BoundsTest(Wrapped(r.loadofs), |r.data|, |st.buf|) then Finish(st, -1)
        else if Wrapped(r.loadofs) + |r.data| > |st.buf| then Overrun(st)
        else Continue(Store(st, Wrapped(r.loadofs), r.data))
      else if '7' <= r.rectyp <= '9' then Finish(st, st.max)
      else Finish(st, -1)
  }

  /** One line of the file: the body of the loop of srec2b. */
  function ReadOneLine(line: string, st: LoadState): (r: Step)
    requires ValidState(st)
    ensures ValidState(r.st)
  {
    if line == [] || line[0] != 'S' then Continue(st)
    else
      match ReadRec(line)
      case None => Finish(st, -1)
      case Some(r) => if r.computed != r.cksum then Finish(st, -1) else UseRecord(r, st)
  }

  function Load(lines: seq<string>, st: LoadState): (r: Step)
    requires ValidState(st)
    ensures ValidState(r.st) && !r.Continue?
    decreases |lines|
  {
    if lines == [] then Finish(st, st.max)
    else
      var s := ReadOneLine(lines[0], st);
      if s.Continue? then Load(lines[1..], s.st) else s
  }

  /** A data record is stored outside the memory exactly if its end wraps around to an address
      that the bounds test lets pass; so it takes an address of four bytes. */
  lemma OverrunExactly(r: Rec, st: LoadState)
    requires ValidState(st) && '1' <= r.rectyp <= '3' && |r.data| < 256 && r.loadofs < UINT_RANGE && |st.buf| < UINT_RANGE
    ensures UseRecord(r, st).Overrun? <==>
      r.loadofs + |r.data| >= UINT_RANGE && r.loadofs + |r.data| - UINT_RANGE <= |st.buf|
  {
    BoundsTestProtects(r.loadofs, |r.data|, |st.buf|);
    if r.loadofs + |r.data| >= UINT_RANGE {
      WrapsOnce(r.loadofs + |r.data|);
    }
  }

  // ----- the round trip

  /** The address fits its bytes. */
  predicate AddressFits(width: nat, addr: nat) {
    (width == 2 && addr < 0x1_0000) || (width == 3 && addr < 0x100_0000) || (width == 4 && addr < UINT_RANGE)
  }

  lemma AddressValue(width: nat, addr: nat)
    requires AddressFits(width, addr)
    ensures BigEndian(AddressBytes(width, addr)) == addr
  {
    if width == 4 {
      FourBytes(addr);
    } else if width == 2 {
      TwoBytes(addr);
      assert AddressBytes(2, addr) == [ByteAt(addr, 1), ByteAt(addr, 0)];
      BigEndianShort(ByteAt(addr, 1), ByteAt(addr, 0));
    } else {
      ThreeBytes(addr);
      var a, b, c := ByteAt(addr, 2), ByteAt(addr, 1), ByteAt(addr, 0);
      assert AddressBytes(3, addr) == [a, b, c];
      assert [a, b, c][..2] == [a, b];
      BigEndianShort(a, b);
    }
  }

  lemma TwoBytes(addr: nat)
    requires addr < 0x1_0000
    ensures Word(ByteAt(addr, 1), ByteAt(addr, 0)) == addr
  {
  }

  lemma ThreeBytes(addr: nat)
    requires addr < 0x100_0000
    ensures Word(Word(ByteAt(addr, 2), ByteAt(addr, 1)), ByteAt(addr, 0)) == addr
  {
    var q := addr / 0x100;
    assert addr / 0x1_0000 == q / 0x100;
  }

  lemma FourBytes(addr: nat)
    requires addr < UINT_RANGE
    ensures BigEndian(AddressBytes(4, addr)) == addr
  {
    var a, b, c, d := ByteAt(addr, 3), ByteAt(addr, 2), ByteAt(addr, 1), ByteAt(addr, 0);
    assert AddressBytes(4, addr) == [a, b, c, d];
    assert [a, b, c, d][..3] == [a, b, c] && [a, b, c][..2] == [a, b];
    BigEndianShort(a, b);
    FourDigits(addr);
  }

  lemma FourDigits(addr: nat)
    requires addr < UINT_RANGE
    ensures Word(Word(Word(ByteAt(addr, 3), ByteAt(addr, 2)), ByteAt(addr, 1)), ByteAt(addr, 0)) == addr
  {
    var q := addr / 0x100;
    assert addr / 0x1_0000 == q / 0x100 && addr / 0x100_0000 == q / 0x1_0000;
    ThreeBytes(q);
  }

  lemma CountBack(n: nat, width: nat)
    requires n + width + 1 < 256
    ensures DataCount(n + width + 1, width) == n
  {
  }

  /** A printed line is read as what was printed. */
  lemma LineRead(typ: char, width: nat, addr: nat, data: seq<octet>)
    requires width == AddressWidth(typ) && |data| + width + 1 < 256 && AddressFits(width, addr)
    ensures var r := ReadRec(Line(typ, width, addr, data));
      && r.Some? && r.value.rectyp == typ && r.value.loadofs == addr && r.value.data == data
      && r.value.computed == r.value.cksum
  {
    hide HexAll, Field, ByteField, ReadBytes, AddressBytes, BigEndian, DataCount, Complement, ByteSum;
    var rec := Bytes(width, addr, data);
    var line := Line(typ, width, addr, data);
    var n := |data|;
    var prefix := "S" + [typ];
    assert line == prefix + HexAll(rec);
    LineByte(prefix, rec, 0);
    LineField(prefix, rec, 1, 1 + width);
    LineBytes(prefix, rec, 1 + width, n);
    LineByte(prefix, rec, 1 + width + n);
    assert rec[1..1 + width] == AddressBytes(width, addr);
    assert rec[1 + width..1 + width + n] == data;
    AddressValue(width, addr);
    CountBack(n, width);
  }

  /** st after the first off bytes of buf were read. */
  predicate Loaded(st: LoadState, buf: seq<octet>, tags: seq<bool>, mem: seq<octet>, off: nat) {
    && ValidState(st) && off <= |buf| <= |mem| && |st.buf| == |mem| == |tags|
    && st.max == off
    && st.buf == buf[..off] + mem[off..]
    && st.tags == seq(off, _ => true) + tags[off..]
  }

  lemma DataRead(st: LoadState, buf: seq<octet>, tags: seq<bool>, mem: seq<octet>, off: nat, n: nat)
    requires Loaded(st, buf, tags, mem, off) && 0 < n <= 122 && off + n <= |buf| < 0x100_0000
    ensures var s := ReadOneLine(DataLine(off, buf[off..off + n]), st);
      s.Continue? && Loaded(s.st, buf, tags, mem, off + n)
  {
    hide ReadRec, Bytes, HexAll;
    var data := buf[off..off + n];
    NoWrap(off, n, |mem|);
    if off + n <= 0xffff {
      LineRead('1', 2, off, data);
    } else {
      LineRead('2', 3, off, data);
    }
    var s := ReadOneLine(DataLine(off, data), st);
    assert s.Continue? && s.st == Store(st, off, data);
    assert buf[..off] + data + mem[off + n..] == buf[..off + n] + mem[off + n..];
  }

  lemma EndRead(st: LoadState)
    requires ValidState(st)
    ensures ReadOneLine(EndLine(), st) == Finish(st, st.max)
  {
    hide ReadRec, Bytes, HexAll;
    LineRead('9', 2, 0, []);
  }

  function Width(end: nat): nat {
    if end <= 0xffff then 2 else 3
  }

  /** The line of n bytes at addr fits the buffer of fgets. */
  predicate LineFits(addr: nat, n: nat) {
    n + Width(addr + n) <= 124
  }

  /** So do all lines from addr on. */
  predicate AllFit(size: nat, addr: nat, recsize: nat)
    requires recsize > 0
    decreases if addr < size then size - addr else 0
  {
    addr >= size || (LineFits(addr, Min(recsize, size - addr)) && AllFit(size, addr + Min(recsize, size - addr), recsize))
  }

  lemma {:induction false} ShortLinesFit(size: nat, addr: nat, recsize: nat)
    requires 0 < recsize && Min(recsize, size) <= 121
    ensures AllFit(size, addr, recsize)
    decreases if addr < size then size - addr else 0
  {
    if addr < size {
      ShortLinesFit(size, addr + Min(recsize, size - addr), recsize);
    }
  }

  /** With 122 bytes a line, those with two address bytes fit. */
  lemma {:induction false} FullLinesFit(size: nat, addr: nat)
    requires addr % 122 == 0 && addr <= size && addr <= 0xffff
    ensures AllFit(size, addr, 122) <==> size / 122 * 122 <= 0xffff
    decreases size - addr
  {
    if addr + 122 <= size {
      if addr + 122 <= 0xffff {
        FullLinesFit(size, addr + 122);
      } else {
        assert size / 122 * 122 >= addr + 122;
      }
    } else if addr < size {
      assert AllFit(size, size, 122);
      assert size / 122 * 122 == addr;
    }
  }

  /** What a caller can check: lines of up to 121 bytes fit, lines of 122 as long as they start low. */
  predicate Fits(size: nat, recsize: nat) {
    var m := Min(recsize, size);
    m <= 121 || (m == 122 && size / 122 * 122 <= 0xffff)
  }

  lemma FitsMeansAllFit(size: nat, recsize: nat)
    requires recsize > 0
    ensures Fits(size, recsize) <==> AllFit(size, 0, recsize)
  {
    var m := Min(recsize, size);
    if m <= 121 {
      ShortLinesFit(size, 0, recsize);
    } else if recsize == 122 {
      FullLinesFit(size, 0);
    } else if m == 122 {
      assert AllFit(size, 122, recsize);
    }
  }

  lemma LineShape(typ: char, width: nat, addr: nat, data: seq<octet>)
    requires |data| + width + 1 < 256 && 2 <= width <= 3 && typ != '\n'
    ensures '\n' !in Line(typ, width, addr, data) && |Line(typ, width, addr, data)| == 2 * (|data| + width) + 6
  {
    hide ByteSum;
    HexAllUpper(Bytes(width, addr, data));
    UpperHexHasNoNewline(HexAll(Bytes(width, addr, data)));
  }

  /** A line that does not fit is cut before its checksum, which is an error. */
  lemma CutLine(typ: char, width: nat, addr: nat, data: seq<octet>, st: LoadState)
    requires width == AddressWidth(typ) && width <= 3 && 124 < |data| + width < 255 && ValidState(st)
    ensures |Line(typ, width, addr, data)| >= MAX_LINE_LEN
    ensures ReadOneLine(Line(typ, width, addr, data)[..MAX_LINE_LEN - 1], st) == Finish(st, -1)
  {
    hide HexAll, HexField, ReadBytes, AddressBytes, DataCount, Complement, ByteSum;
    var rec := Bytes(width, addr, data);
    var line := Line(typ, width, addr, data);
    var cut, n := line[..MAX_LINE_LEN - 1], |data|;
    var prefix := "S" + [typ];
    assert line == prefix + HexAll(rec);
    LineByte(prefix, rec, 0);
    assert cut[2..4] == line[2..4];
    assert ByteField(cut, 2) == Some(n + width + 1);
    CountBack(n, width);
    assert ByteField(cut, 4 + 2 * width + 2 * n).None?;
  }

  lemma DataLineShape(addr: nat, data: seq<octet>, st: LoadState)
    requires 0 < |data| <= 252 && (addr + |data| > 0xffff ==> |data| <= 251) && ValidState(st)
    ensures '\n' !in DataLine(addr, data)
    ensures LineFits(addr, |data|) ==> |DataLine(addr, data)| + 1 < MAX_LINE_LEN
    ensures !LineFits(addr, |data|) ==>
      && |DataLine(addr, data)| >= MAX_LINE_LEN
      && ReadOneLine(DataLine(addr, data)[..MAX_LINE_LEN - 1], st) == Finish(st, -1)
  {
    hide Line, ReadOneLine;
    var w := Width(addr + |data|);
    LineShape(if w == 2 then '1' else '2', w, addr, data);
    if !LineFits(addr, |data|) {
      CutLine(if w == 2 then '1' else '2', w, addr, data, st);
    }
  }

  /** The text of the lines from addr on. */
  function TextFrom(buf: seq<octet>, addr: nat, recsize: nat): string
    requires addr <= |buf| && 0 < recsize < 256
  {
    Joined(SLines(buf, addr, recsize))
  }

  /** Reading the text from addr on: it is restored if every line fits, and an error if one does not. */
  lemma {:induction false} LoadText(buf: seq<octet>, tags: seq<bool>, mem: seq<octet>, off: nat, recsize: nat, st: LoadState)
    requires Loaded(st, buf, tags, mem, off) && |buf| < 0x100_0000 && 0 < recsize < 256
    requires Min(recsize, |buf|) <= 251 || (off == 0 && Min(recsize, |buf|) == 252)
    ensures var s := Load(Lines(TextFrom(buf, off, recsize)), st);
      if AllFit(|buf|, off, recsize) then
        && s.Finish? && s.rc == |buf|
        && s.st.buf == buf + mem[|buf|..]
        && s.st.tags == seq(|buf|, _ => true) + tags[|buf|..]
      else s == Finish(s.st, -1)
    decreases |buf| - off
  {
    hide ReadOneLine, DataLine, EndLine, Lines, LineFits, SLines, Joined;
    JoinedNext(buf, off, recsize);
    if off == |buf| {
      EndRead(st);
      EndShape();
      FirstLine(EndLine(), "");
      assert EndLine() + "\n" + "" == EndLine() + "\n";
      NoLines();
      LoadNext(EndLine(), [], st);
      assert [EndLine()] + [] == [EndLine()];
      assert buf[..off] == buf;
    } else {
      var n := Min(recsize, |buf| - off);
      var line, rest := DataLine(off, buf[off..off + n]), TextFrom(buf, off + n, recsize);
      DataLineShape(off, buf[off..off + n], st);
      if LineFits(off, n) {
        FitsAtMost(off, n);
        DataRead(st, buf, tags, mem, off, n);
        FirstLine(line, rest);
        LoadNext(line, Lines(rest), st);
        LoadText(buf, tags, mem, off + n, recsize, ReadOneLine(line, st).st);
      } else {
        assert !AllFit(|buf|, off, recsize);
        LongLine(line, rest);
        var lines := Lines(line + "\n" + rest);
        assert lines == [lines[0]] + lines[1..];
        LoadNext(lines[0], lines[1..], st);
      }
    }
  }

  lemma FitsAtMost(addr: nat, n: nat)
    requires LineFits(addr, n)
    ensures n <= 122
  {
  }

  lemma EndShape()
    ensures '\n' !in EndLine() && |EndLine()| + 1 < MAX_LINE_LEN
  {
    hide Line;
    LineShape('9', 2, 0, []);
  }

  /** Reading back what b2srec printed: the size is returned, every byte is restored and exactly
      those bytes are tagged, across the switch from two to three address bytes, if and only if
      every line fits the reader's buffer; otherwise the load fails. */
  lemma SRecordRoundTrip(buf: seq<octet>, recsize: nat, mem: seq<octet>, tags: seq<bool>)
    requires 0 < recsize < 256 && Min(recsize, |buf|) <= 252 && |buf| < 0x100_0000 && |buf| <= |mem| == |tags|
    ensures var s := Load(Lines(SText(buf, recsize)), LoadState(mem, tags, 0, 0));
      if Fits(|buf|, recsize) then
        && s.Finish? && s.rc == |buf|
        && s.st.buf == buf + mem[|buf|..]
        && s.st.tags == seq(|buf|, _ => true) + tags[|buf|..]
      else s == Finish(s.st, -1)
  {
    hide Lines, Load, Joined, SLines, AllFit, Fits;
    FitsMeansAllFit(|buf|, recsize);
    LoadText(buf, tags, mem, 0, recsize, LoadState(mem, tags, 0, 0));
  }

  // ----- the writer

  /** Prints one line with the bytes buf[nextaddr..nextaddr + n) of an array indexed by address. */
  method PrintLine(buf: array<octet>, typ: char, addr_width: nat, nextaddr: nat, n: nat) returns (line: string)
    requires n < 256 && addr_width <= 4 && nextaddr + n <= buf.Length
    ensures line == Line(typ, addr_width, nextaddr, buf[nextaddr..nextaddr + n]) + "\n"
  {
    hide ByteSum, HexAll, Hex2, Plus, Complement, ByteAt;
    var count := n + addr_width + 1;
    ghost var addr := AddressBytes(addr_width, nextaddr);
    ghost var head := [count % 256] + addr;
    line := "S" + [typ] + (if count < 256 then "" else "1") + Hex2(count % 256) + HexAll(AddressBytes(addr_width, nextaddr));
    HexAllAppend([count % 256], addr);
    HexAllLast([], count % 256);
    assert [] + [count % 256] == [count % 256];
    ghost var front := "S" + [typ] + (if count < 256 then "" else "1");
    assert line == front + HexAll(head);
    var cksum := AddressSum(addr_width, nextaddr, count % 256);
    var i := 0;
    assert buf[nextaddr..nextaddr] == [] && head + [] == head;
    while i < n
      invariant 0 <= i <= n
      invariant line == front + HexAll(head + buf[nextaddr..nextaddr + i])
      invariant cksum == ByteSum(head + buf[nextaddr..nextaddr + i])
    {
      var b := buf[nextaddr + i];
      OneMore(head, buf[nextaddr..nextaddr + i], b);
      assert buf[nextaddr..nextaddr + i] + [b] == buf[nextaddr..nextaddr + i + 1];
      line := line + Hex2(b);
      cksum := Plus(cksum, b);
      i := i + 1;
    }
    cksum := Complement(cksum);
    HexAllLast(head + buf[nextaddr..nextaddr + n], cksum);
    line := line + Hex2(cksum) + "\n";
  }

  /** The checksum loop over the address bytes. */
  method AddressSum(addr_width: nat, addr: nat, sum: octet) returns (cksum: octet)
    ensures cksum == ByteSum([sum] + AddressBytes(addr_width, addr))
  {
    hide ByteSum, Plus, ByteAt;
    cksum := sum;
    ghost var bs := AddressBytes(addr_width, addr);
    var i := addr_width;
    SingleSum(sum);
    assert [sum] + bs[..0] == [sum];
    while i > 0
      invariant 0 <= i <= addr_width
      invariant cksum == ByteSum([sum] + bs[..addr_width - i])
    {
      ByteSumLast([sum] + bs[..addr_width - i], bs[addr_width - i]);
      assert [sum] + bs[..addr_width - i] + [bs[addr_width - i]] == [sum] + bs[..addr_width - (i - 1)];
      cksum := Plus(cksum, ByteAt(addr, i - 1));
      i := i - 1;
    }
    assert bs[..addr_width] == bs;
  }

  lemma SingleSum(b: octet)
    ensures ByteSum([b]) == b
  {
    SumLast([], b);
    assert [] + [b] == [b];
  }

  /** b2srec with start address 0; text is what it prints. */
  method B2srec(inbuf: array<octet>, bufsize: nat, recsize: int) returns (text: string, rc: int)
    requires recsize > 0 && bufsize <= inbuf.Length && bufsize < 0x100_0000
    ensures recsize > 255 ==> rc == -1 && text == ""
    ensures recsize <= 255 ==> rc == bufsize && text == SText(inbuf[..bufsize], recsize)
  {
    hide Line, Joined, SLines;
    text := "";
    if recsize > 255 {
      return text, -1;
    }
    ghost var all := inbuf[..bufsize];
    var nextaddr, left := 0, bufsize;
    while left > 0
      invariant 0 <= nextaddr <= nextaddr + left == bufsize
      invariant text + Joined(SLines(all, nextaddr, recsize)) == SText(all, recsize)
      decreases left
    {
      var n := recsize;
      if n > left {
        n := left;
      }
      var line;
      if nextaddr + n <= 0xffff {
        line := PrintLine(inbuf, '1', 2, nextaddr, n);
      } else {
        line := PrintLine(inbuf, '2', 3, nextaddr, n);
      }
      assert inbuf[nextaddr..nextaddr + n] == all[nextaddr..nextaddr + n];
      JoinedNext(all, nextaddr, recsize);
      text := text + line;
      nextaddr := nextaddr + n;
      left := left - n;
    }
    var line := PrintLine(inbuf, '9', 2, 0, 0);
    assert inbuf[0..0] == [];
    JoinedNext(all, nextaddr, recsize);
    text := text + line;
    rc := nextaddr;
  }

  lemma JoinedNext(buf: seq<octet>, addr: nat, recsize: nat)
    requires addr <= |buf| && 0 < recsize < 256
    ensures var text := Joined(SLines(buf, addr, recsize));
      if addr == |buf| then text == EndLine() + "\n"
      else
        var n := Min(recsize, |buf| - addr);
        text == DataLine(addr, buf[addr..addr + n]) + "\n" + Joined(SLines(buf, addr + n, recsize))
  {
    hide DataLine, EndLine;
    var lines := SLines(buf, addr, recsize);
    if addr < |buf| {
      assert lines[1..] == SLines(buf, addr + Min(recsize, |buf| - addr), recsize);
    } else {
      assert lines[1..] == [];
    }
  }

  // ----- the reader

  datatype Header = Header(rectyp: char, reclen: octet, loadofs: nat, cksum: octet)

  /** srec_readrec: the data bytes go to the front of data. */
  method SrecReadrec(rec: string, data: array<octet>) returns (rc: int, h: Header)
    requires data.Length == IHEX_MAXDATA
    modifies data
    ensures rc < 0 <==> ReadRec(rec).None?
    ensures ReadRec(rec).Some? ==>
      var r := ReadRec(rec).value;
      && h == Header(r.rectyp, |r.data|, r.loadofs, r.cksum)
      && rc == r.computed
      && data[..|r.data|] == r.data
  {
    hide Field, ByteSum, Complement, ReadBytes, AddressBytes;
    h := Header('0', 0, 0, 0);
    rc := -1;
    if |rec| < 2 { return; }
    var addr_width := 2;
    if rec[1] == '2' || rec[1] == '8' {
      addr_width := 3;
    } else if rec[1] == '3' || rec[1] == '7' {
      addr_width := 4;
    }
    var ok, v := ParseField(rec, 2, 2);
    if !ok { return; }
    var count := v % 256;
    var reclen := DataCount(count, addr_width);
    ok, v := ParseField(rec, 4, 2 * addr_width);
    if !ok { return; }
    var loadofs := v % 0x1_0000_0000;
    var cksum := AddressSum(addr_width, loadofs, count);
    ghost var head := [count] + AddressBytes(addr_width, loadofs);
    ok, cksum := ReadData(rec, 4 + 2 * addr_width, reclen, data, cksum, head);
    if !ok { return; }
    ok, v := ParseField(rec, 4 + 2 * addr_width + 2 * (reclen as nat), 2);
    if !ok { return; }
    h := Header(rec[1], reclen, loadofs, v % 256);
    rc := Complement(cksum);
  }

  /** The body of the loop of srec2b after fgets. */
  method TakeLine(line: string, buf: array<octet>, tags: array<bool>, data: array<octet>, max: nat, count: nat)
    returns (done: bool, overrun: bool, rc: int, maxaddr: nat, reccount: nat)
    requires buf.Length == tags.Length && data.Length == IHEX_MAXDATA && data != buf
    modifies buf, tags, data
    ensures var s := ReadOneLine(line, LoadState(old(buf[..]), old(tags[..]), max, count));
      && done == !s.Continue? && overrun == s.Overrun?
      && LoadState(buf[..], tags[..], maxaddr, reccount) == s.st
      && (s.Finish? ==> rc == s.rc)
  {
    hide ReadRec, Wrapped, BoundsTest;
    done, overrun, rc, maxaddr, reccount := false, false, 0, max, count;
    if line == "" || line[0] != 'S' {
      return;
    }
    var h;
    rc, h := SrecReadrec(line, data);
    if rc < 0 || rc != h.cksum {
      return true, false, -1, max, count;
    }
    var datarec := false;
    match h.rectyp {
      case '0' =>
      case '1' => datarec := true;
      case '2' => datarec := true;
      case '3' => datarec := true;
      case '4' => return true, false, -1, max, count;
      case '5' =>
        if h.loadofs != reccount {
          return true, false, -1, max, count;
        }
      case '7' => return true, false, maxaddr, max, count;
      case '8' => return true, false, maxaddr, max, count;
      case '9' => return true, false, maxaddr, max, count;
      case _ => return true, false, -1, max, count;
    }
    if datarec {
      var v;
      v, maxaddr := StoreData(buf, tags, data, Wrapped(h.loadofs), h.reclen, max);
      if v == Refused {
        return true, false, -1, max, count;
      }
      if v == Outside {
        return true, true, 0, max, count;
      }
      reccount := reccount + 1;
    }
  }

  lemma LoadNext(line: string, rest: seq<string>, st: LoadState)
    requires ValidState(st)
    ensures var s := ReadOneLine(line, st); Load([line] + rest, st) == if s.Continue? then Load(rest, s.st) else s
  {
    hide ReadOneLine;
  }

  /** srec2b with file offset 0 and bufsize the size of the memory. */
  method Srec2b(text: string, buf: array<octet>, tags: array<bool>, data: array<octet>) returns (rc: int, overrun: bool)
    requires buf.Length == tags.Length && data.Length == IHEX_MAXDATA && data != buf
    modifies buf, tags, data
    ensures var s := Load(Lines(text), LoadState(old(buf[..]), old(tags[..]), 0, 0));
      && overrun == s.Overrun? && (s.Finish? ==> rc == s.rc)
      && buf[..] == s.st.buf && tags[..] == s.st.tags
  {
    hide ReadOneLine, Lines;
    overrun := false;
    var maxaddr, reccount, pos := 0, 0, 0;
    ghost var all := Load(Lines(text), LoadState(buf[..], tags[..], 0, 0));
    assert text[0..] == text;
    while pos < |text|
      invariant 0 <= pos <= |text| && maxaddr >= 0 && reccount >= 0 && !overrun
      invariant Load(Lines(text[pos..]), LoadState(buf[..], tags[..], maxaddr, reccount)) == all
    {
      var line, next := Fgets(text, pos);
      LoadNext(line, Lines(text[next..]), LoadState(buf[..], tags[..], maxaddr, reccount));
      var done;
      done, overrun, rc, maxaddr, reccount := TakeLine(line, buf, tags, data, maxaddr, reccount);
      if done {
        return;
      }
      pos := next;
    }
    assert text[pos..] == "";
    NoLines();
    rc := maxaddr;
  }
}
