/** What the bytes of S-record lines sum to, and which wrong bytes the reader notices. */
module SRecordSums {
  import opened Options
  import opened CText
  import opened HexRecords
  import opened SRecord

  /** The line of the type that spells the bytes rec: count, address, data and checksum. */
  function Spelled(typ: char, rec: seq<octet>): string {
    "S" + [typ] + HexAll(rec)
  }

  /** A record whose count byte is right and whose bytes sum to 255 modulo 256. */
  predicate GoodRecord(typ: char, rec: seq<octet>) {
    && AddressWidth(typ) + 2 <= |rec| <= 256
    && rec[0] == |rec| - 1
    && Sum(rec) % 256 == 255
  }

  // ----- what is printed

  lemma ComplementTells(front: seq<octet>, last: octet)
    ensures Complement(ByteSum(front)) == last <==> Sum(front + [last]) % 256 == 255
  {
    SumLast(front, last);
    FullSum(Sum(front), last);
  }

  lemma FullSum(s: nat, c: octet)
    ensures 255 - s % 256 == c <==> (s + c) % 256 == 255
  {
  }

  lemma LineIsGood(typ: char, width: nat, addr: nat, data: seq<octet>)
    requires width == AddressWidth(typ) && |data| + width + 1 < 256
    ensures Line(typ, width, addr, data) == Spelled(typ, Bytes(width, addr, data))
    ensures GoodRecord(typ, Bytes(width, addr, data))
  {
    hide Sum, Complement, ByteSum, AddressBytes;
    var body := Body(width, addr, data);
    ComplementTells(body, Complement(ByteSum(body)));
  }

  /** The first of the lines from addr on. */
  function FirstBytes(buf: seq<octet>, addr: nat, recsize: nat): seq<octet>
    requires addr <= |buf| && 0 < recsize < 256
  {
    if addr == |buf| then Bytes(2, 0, [])
    else
      var n := Min(recsize, |buf| - addr);
      Bytes(Width(addr + n), addr, buf[addr..addr + n])
  }

  function FirstType(size: nat, addr: nat, recsize: nat): char {
    if addr == size then '9' else if addr < size && addr + Min(recsize, size - addr) > 0xffff then '2' else '1'
  }

  /** The count of the line of the next bytes has two digits. */
  predicate CountFits(size: nat, addr: nat, recsize: nat) {
    addr < size ==> Min(recsize, size - addr) + Width(addr + Min(recsize, size - addr)) < 255
  }

  lemma FirstIsGood(buf: seq<octet>, addr: nat, recsize: nat)
    requires addr <= |buf| && 0 < recsize < 256 && CountFits(|buf|, addr, recsize)
    ensures GoodRecord(FirstType(|buf|, addr, recsize), FirstBytes(buf, addr, recsize))
    ensures SLines(buf, addr, recsize) != []
    ensures SLines(buf, addr, recsize)[0] == Spelled(FirstType(|buf|, addr, recsize), FirstBytes(buf, addr, recsize))
  {
    hide Line, Bytes, GoodRecord, Spelled;
    if addr == |buf| {
      LineIsGood('9', 2, 0, []);
    } else {
      var n := Min(recsize, |buf| - addr);
      LineIsGood(FirstType(|buf|, addr, recsize), Width(addr + n), addr, buf[addr..addr + n]);
    }
  }

  /** A data line that ends at or below 0xffff has two address bytes and type 1, any other three and type 2. */
  lemma AddressSwitch(addr: nat, data: seq<octet>)
    requires 0 < |data| <= 251 && addr + |data| <= 0xff_ffff
    ensures var r := ReadRec(DataLine(addr, data));
      && r.Some? && r.value.loadofs == addr && r.value.data == data
      && r.value.rectyp == (if addr + |data| <= 0xffff then '1' else '2')
    ensures |DataLine(addr, data)| == 2 * |data| + (if addr + |data| <= 0xffff then 10 else 12)
  {
    hide Line, ReadRec;
    if addr + |data| <= 0xffff {
      LineRead('1', 2, addr, data);
      LineShape('1', 2, addr, data);
    } else {
      LineRead('2', 3, addr, data);
      LineShape('2', 3, addr, data);
    }
  }

  /** Every line printed, the last included, spells a record with the right count whose bytes sum to
      255, as long as counts have two digits. */
  lemma {:induction false} LinesAreGood(buf: seq<octet>, addr: nat, recsize: nat, k: nat)
    requires addr <= |buf| && 0 < recsize < 256 && k < |SLines(buf, addr, recsize)|
    requires recsize <= 251 || |buf| <= 251 || (recsize == 252 && |buf| <= 0xffff)
    ensures exists typ, rec :: SLines(buf, addr, recsize)[k] == Spelled(typ, rec) && GoodRecord(typ, rec)
    decreases |buf| - addr
  {
    hide GoodRecord, Spelled, FirstType, FirstBytes, DataLine, EndLine;
    if k == 0 {
      FirstIsGood(buf, addr, recsize);
    } else {
      LinesAreGood(buf, addr + Min(recsize, |buf| - addr), recsize, k - 1);
    }
  }

  /** With a longer count the line has an odd number of digits and spells no record. */
  lemma LongCountSpellsNothing(typ: char, width: nat, addr: nat, data: seq<octet>, typ': char, rec: seq<octet>)
    requires |data| < 256 && width <= 4 && |data| + width + 1 >= 256
    ensures Line(typ, width, addr, data) != Spelled(typ', rec)
  {
    assert |Line(typ, width, addr, data)| % 2 == 1 && |Spelled(typ', rec)| % 2 == 0;
  }

  // ----- what is read

  /** The bytes of a record as the reader has them, the count in an unsigned char. */
  function BytesRead(r: Rec, width: nat): seq<octet> {
    [(|r.data| + width + 1) % 256] + AddressBytes(width, r.loadofs) + r.data + [r.cksum]
  }

  /** The reader's checksum test: count, address, data and checksum sum to 255 modulo 256. */
  lemma TestMeansSum(line: string)
    requires |line| >= 2 && ReadRec(line).Some?
    ensures var r := ReadRec(line).value;
      r.computed == r.cksum <==> Sum(BytesRead(r, AddressWidth(line[1]))) % 256 == 255
  {
    hide Sum, ByteSum, Complement, AddressBytes, Field, ByteField, ReadBytes;
    var r := ReadRec(line).value;
    var w := AddressWidth(line[1]);
    var len := ByteField(line, 2).value;
    CountAgain(len, w);
    ComplementTells([len] + AddressBytes(w, r.loadofs) + r.data, r.cksum);
  }

  lemma CountAgain(len: octet, w: nat)
    requires w <= 4
    ensures (DataCount(len, w) + w + 1) % 256 == len
  {
  }

  lemma HexDigitTells(a: nat, b: nat)
    requires a < 16 && b < 16 && HexDigit(a) == HexDigit(b)
    ensures a == b
  {
    HexDigitValue(a);
    HexDigitValue(b);
  }

  lemma Hex2Tells(a: octet, b: octet)
    requires Hex2(a) == Hex2(b)
    ensures a == b
  {
    hide HexDigit;
    assert Hex2(a)[0] == HexDigit(a / 16) && Hex2(a)[1] == HexDigit(a % 16);
    assert Hex2(b)[0] == HexDigit(b / 16) && Hex2(b)[1] == HexDigit(b % 16);
    HexDigitTells(a / 16, b / 16);
    HexDigitTells(a % 16, b % 16);
  }

  lemma {:induction false} HexAllTells(a: seq<octet>, b: seq<octet>)
    requires HexAll(a) == HexAll(b)
    ensures a == b
    decreases |a|
  {
    hide Hex2;
    assert |a| == |b|;
    if a != [] {
      var s := HexAll(a);
      assert s[..2] == Hex2(a[0]) && s[2..] == HexAll(a[1..]);
      assert s[..2] == Hex2(b[0]) && s[2..] == HexAll(b[1..]);
      Hex2Tells(a[0], b[0]);
      HexAllTells(a[1..], b[1..]);
      assert a == [a[0]] + a[1..] && b == [b[0]] + b[1..];
    }
  }

  lemma SpelledTells(typ: char, rec: seq<octet>, typ': char, rec': seq<octet>)
    requires Spelled(typ, rec) == Spelled(typ', rec')
    ensures typ == typ' && rec == rec'
  {
    hide HexAll;
    var s := Spelled(typ, rec);
    assert s[1] == typ && s[1] == typ' && s[2..] == HexAll(rec) && s[2..] == HexAll(rec');
    HexAllTells(rec, rec');
  }

  /** Address bytes are read as a number and taken apart again for the sum. */
  lemma AddressAgain(bs: seq<octet>)
    requires |bs| == 2 || |bs| == 3
    ensures AddressBytes(|bs|, BigEndian(bs)) == bs && BigEndian(bs) < UINT_RANGE
  {
    var x := BigEndian(bs);
    if |bs| == 2 {
      assert bs == [bs[0], bs[1]];
      BigEndianShort(bs[0], bs[1]);
      WordBytes(bs[0], bs[1]);
      assert AddressBytes(2, x) == [ByteAt(x, 1), ByteAt(x, 0)];
    } else {
      assert bs[..2] == [bs[0], bs[1]];
      BigEndianShort(bs[0], bs[1]);
      ThreeBack(bs[0], bs[1], bs[2]);
      assert AddressBytes(3, x) == [ByteAt(x, 2), ByteAt(x, 1), ByteAt(x, 0)];
    }
  }

  lemma ThreeBack(a: octet, b: octet, c: octet)
    ensures var x := (a * 256 + b) * 256 + c; ByteAt(x, 2) == a && ByteAt(x, 1) == b && ByteAt(x, 0) == c
  {
    var x := (a * 256 + b) * 256 + c;
    assert x / 0x100 == a * 256 + b && x / 0x1_0000 == a;
  }

  /** The count byte is right, and there is room for address and checksum. */
  predicate Counted(typ: char, rec: seq<octet>) {
    AddressWidth(typ) <= 3 && AddressWidth(typ) + 2 <= |rec| <= 256 && rec[0] == |rec| - 1
  }

  lemma SpelledHead(typ: char, rec: seq<octet>)
    requires Counted(typ, rec)
    ensures ReadRec(Spelled(typ, rec)) ==
      ReadRest(Spelled(typ, rec), |rec| - 1, BigEndian(rec[1..1 + AddressWidth(typ)]))
  {
    hide Field, ByteField, HexAll, BigEndian, ReadRest, AddressBytes;
    var w, prefix := AddressWidth(typ), "S" + [typ];
    LineByte(prefix, rec, 0);
    LineField(prefix, rec, 1, 1 + w);
    AddressAgain(rec[1..1 + w]);
  }

  lemma SpelledRest(typ: char, rec: seq<octet>)
    requires Counted(typ, rec)
    ensures var r := ReadRest(Spelled(typ, rec), |rec| - 1, BigEndian(rec[1..1 + AddressWidth(typ)]));
      r.Some? && r.value.cksum == rec[|rec| - 1] && r.value.computed == Complement(ByteSum(rec[..|rec| - 1]))
  {
    hide ByteSum, Complement, AddressBytes, ByteField, ReadBytes, HexAll, BigEndian, DataCount;
    var w, n, prefix := AddressWidth(typ), |rec|, "S" + [typ];
    LineBytes(prefix, rec, 1 + w, n - w - 2);
    LineByte(prefix, rec, n - 1);
    AddressAgain(rec[1..1 + w]);
    CountBack(n - w - 2, w);
    assert rec[..n - 1] == [rec[0]] + rec[1..1 + w] + rec[1 + w..1 + w + (n - w - 2)];
  }

  /** A line that spells a record passes the checksum test exactly if the record sums to 255. */
  lemma SpelledIsRead(typ: char, rec: seq<octet>)
    requires Counted(typ, rec)
    ensures var r := ReadRec(Spelled(typ, rec));
      r.Some? && (r.value.computed == r.value.cksum <==> Sum(rec) % 256 == 255)
  {
    hide Sum, ByteSum, Complement, Spelled, ReadRec, ReadRest, BigEndian;
    SpelledHead(typ, rec);
    SpelledRest(typ, rec);
    var front := rec[..|rec| - 1];
    ComplementTells(front, rec[|rec| - 1]);
    assert rec == front + [rec[|rec| - 1]];
  }

  lemma NotFullAnyMore(s: int, old_: octet, new_: octet)
    requires s % 256 == 255 && old_ != new_
    ensures (s - old_ + new_) % 256 != 255
  {
  }

  /** A good record with one byte behind the count changed is refused. */
  lemma WrongByteSeen(typ: char, rec: seq<octet>, j: nat, v: octet, st: LoadState)
    requires GoodRecord(typ, rec) && AddressWidth(typ) <= 3 && 1 <= j < |rec| && v != rec[j] && ValidState(st)
    ensures ReadOneLine(Spelled(typ, rec[j := v]), st) == Finish(st, -1)
  {
    hide ReadRec, Sum, HexAll;
    SumOfUpdate(rec, j, v);
    NotFullAnyMore(Sum(rec), rec[j], v);
    SpelledIsRead(typ, rec[j := v]);
  }

  /** A long line is cut inside or before its checksum and refused, whatever it spells. */
  lemma CutSeen(typ: char, rec: seq<octet>, st: LoadState)
    requires AddressWidth(typ) + 2 <= |rec| <= 256 && rec[0] == |rec| - 1 && ValidState(st)
    requires |Spelled(typ, rec)| >= MAX_LINE_LEN
    ensures ReadOneLine(Spelled(typ, rec)[..MAX_LINE_LEN - 1], st) == Finish(st, -1)
  {
    hide HexAll, HexField, ReadBytes, AddressBytes, DataCount, Complement, ByteSum;
    var w, line := AddressWidth(typ), Spelled(typ, rec);
    var cut := line[..MAX_LINE_LEN - 1];
    LineByte("S" + [typ], rec, 0);
    assert cut[2..4] == line[2..4];
    assert ByteField(cut, 2) == Some(|rec| - 1);
    CountBack(|rec| - w - 2, w);
    assert ByteField(cut, 4 + 2 * w + 2 * (|rec| - w - 2)).None?;
  }

  lemma SpelledShape(typ: char, rec: seq<octet>)
    requires typ != '\n'
    ensures '\n' !in Spelled(typ, rec) && |Spelled(typ, rec)| == 2 * |rec| + 2
  {
    HexAllUpper(rec);
    UpperHexHasNoNewline(HexAll(rec));
  }

  /** A text whose first line has a wrong byte. */
  lemma WrongFirst(typ: char, rec: seq<octet>, j: nat, v: octet, rest: string, st: LoadState)
    requires GoodRecord(typ, rec) && AddressWidth(typ) <= 3 && typ != '\n' && 1 <= j < |rec| && v != rec[j] && ValidState(st)
    ensures Load(Lines(Spelled(typ, rec[j := v]) + "\n" + rest), st) == Finish(st, -1)
  {
    hide Spelled, ReadOneLine, Lines, Sum;
    var line := Spelled(typ, rec[j := v]);
    SpelledShape(typ, rec[j := v]);
    if |line| + 1 < MAX_LINE_LEN {
      FirstLine(line, rest);
      WrongByteSeen(typ, rec, j, v, st);
      LoadNext(line, Lines(rest), st);
    } else {
      LongLine(line, rest);
      CutSeen(typ, rec[j := v], st);
      var lines := Lines(line + "\n" + rest);
      assert lines == [lines[0]] + lines[1..];
      LoadNext(lines[0], lines[1..], st);
    }
  }

  lemma JoinedTwo(line: string, rest: seq<string>)
    ensures Joined([line] + rest) == line + "\n" + Joined(rest)
  {
    assert ([line] + rest)[1..] == rest;
  }

  /** The lines from addr on, line by line. */
  lemma SplitLines(buf: seq<octet>, addr: nat, recsize: nat)
    requires addr < |buf| && 0 < recsize < 256
    ensures var n := Min(recsize, |buf| - addr);
      SLines(buf, addr, recsize) == [DataLine(addr, buf[addr..addr + n])] + SLines(buf, addr + n, recsize)
  {
    hide DataLine, EndLine;
  }

  lemma {:induction false} WrongLineSeen(buf: seq<octet>, tags: seq<bool>, mem: seq<octet>, addr: nat, recsize: nat,
                                         st: LoadState, k: nat, typ: char, rec: seq<octet>, j: nat, v: octet)
    requires Loaded(st, buf, tags, mem, addr) && |buf| < 0x100_0000 && 0 < recsize < 256
    requires Min(recsize, |buf|) <= 251 || (addr == 0 && Min(recsize, |buf|) == 252)
    requires k < |SLines(buf, addr, recsize)| && SLines(buf, addr, recsize)[k] == Spelled(typ, rec)
    requires 1 <= j < |rec| && v != rec[j]
    ensures var s := Load(Lines(Joined(SLines(buf, addr, recsize)[k := Spelled(typ, rec[j := v])])), st);
      s == Finish(s.st, -1)
    decreases k
  {
    hide ReadOneLine, DataLine, EndLine, Lines, LineFits, SLines, Joined, Spelled, FirstBytes, GoodRecord;
    var lines, bad := SLines(buf, addr, recsize), Spelled(typ, rec[j := v]);
    if k == 0 {
      FirstIsGood(buf, addr, recsize);
      SpelledTells(typ, rec, FirstType(|buf|, addr, recsize), FirstBytes(buf, addr, recsize));
      assert lines[0 := bad] == [bad] + lines[1..];
      JoinedTwo(bad, lines[1..]);
      WrongFirst(typ, rec, j, v, Joined(lines[1..]), st);
    } else {
      MoreLines(buf, addr, recsize);
      SplitLines(buf, addr, recsize);
      var n := Min(recsize, |buf| - addr);
      var line, later := DataLine(addr, buf[addr..addr + n]), SLines(buf, addr + n, recsize)[k - 1 := bad];
      assert lines[k := bad] == [line] + later;
      JoinedTwo(line, later);
      var rest := Joined(later);
      DataLineShape(addr, buf[addr..addr + n], st);
      if LineFits(addr, n) {
        FitsAtMost(addr, n);
        DataRead(st, buf, tags, mem, addr, n);
        FirstLine(line, rest);
        LoadNext(line, Lines(rest), st);
        WrongLineSeen(buf, tags, mem, addr + n, recsize, ReadOneLine(line, st).st, k - 1, typ, rec, j, v);
      } else {
        LongLine(line, rest);
        var all := Lines(line + "\n" + rest);
        assert all == [all[0]] + all[1..];
        LoadNext(all[0], all[1..], st);
      }
    }
  }

  /** At the end there is one line. */
  lemma MoreLines(buf: seq<octet>, addr: nat, recsize: nat)
    requires addr <= |buf| && 0 < recsize < 256
    ensures |SLines(buf, addr, recsize)| > 1 ==> addr < |buf|
  {
    hide EndLine;
  }

  /** Changing one address, data or checksum byte of any line printed makes the load fail. */
  lemma WrongByteIsDetected(buf: seq<octet>, recsize: nat, mem: seq<octet>, tags: seq<bool>,
                            k: nat, typ: char, rec: seq<octet>, j: nat, v: octet)
    requires 0 < recsize < 256 && Min(recsize, |buf|) <= 252 && |buf| < 0x100_0000 && |buf| <= |mem| == |tags|
    requires k < |SLines(buf, 0, recsize)| && SLines(buf, 0, recsize)[k] == "S" + [typ] + HexAll(rec)
    requires 1 <= j < |rec| && v != rec[j]
    ensures var lines := SLines(buf, 0, recsize)[k := "S" + [typ] + HexAll(rec[j := v])];
      var s := Load(Lines(Joined(lines)), LoadState(mem, tags, 0, 0));
      s == Finish(s.st, -1)
  {
    hide SLines, Load, Joined, Lines, HexAll;
    assert buf[..0] + mem[0..] == mem && seq(0, _ => true) + tags[0..] == tags;
    WrongLineSeen(buf, tags, mem, 0, recsize, LoadState(mem, tags, 0, 0), k, typ, rec, j, v);
  }

  // ----- what the reader makes of each type

  /** A header line is skipped, a count line compares its address with the number of data lines so
      far, an end line returns the highest address, and a type that is no digit of these is refused. */
  lemma OtherTypes(typ: char, addr: nat, data: seq<octet>, st: LoadState)
    requires var w := AddressWidth(typ); |data| + w + 1 < 256 && AddressFits(w, addr)
    requires ValidState(st) && !('1' <= typ <= '3')
    ensures ReadOneLine(Line(typ, AddressWidth(typ), addr, data), st) ==
      if typ == '0' || (typ == '5' && addr == st.reccount) then Continue(st)
      else if typ == '7' || typ == '8' || typ == '9' then Finish(st, st.max)
      else Finish(st, -1)
  {
    hide ReadRec, Bytes, HexAll;
    LineRead(typ, AddressWidth(typ), addr, data);
  }

  /** A data line of any address width stores and tags its bytes at its address, and nothing else. */
  lemma DataAtAddress(typ: char, addr: nat, data: seq<octet>, st: LoadState)
    requires var w := AddressWidth(typ); |data| + w + 1 < 256 && AddressFits(w, addr)
    requires ValidState(st) && '1' <= typ <= '3' && addr + |data| <= |st.buf| < UINT_RANGE
    ensures var s := ReadOneLine(Line(typ, AddressWidth(typ), addr, data), st);
      && s.Continue? && s.st.reccount == st.reccount + 1 && |s.st.buf| == |st.buf| && |s.st.tags| == |st.tags|
      && (forall k | 0 <= k < |st.buf| ::
            if addr <= k < addr + |data| then s.st.buf[k] == data[k - addr] && s.st.tags[k]
            else s.st.buf[k] == st.buf[k] && s.st.tags[k] == st.tags[k])
      && s.st.max == Max(st.max, addr + |data|)
  {
    hide ReadRec, Bytes, HexAll, Store;
    NoWrap(addr, |data|, |st.buf|);
    LineRead(typ, AddressWidth(typ), addr, data);
    assert ReadOneLine(Line(typ, AddressWidth(typ), addr, data), st) == Continue(Store(st, addr, data));
    StoredAt(st, addr, data);
  }

  lemma StoredAt(st: LoadState, at: nat, data: seq<octet>)
    requires ValidState(st) && at + |data| <= |st.buf|
    ensures var r := Store(st, at, data);
      && r.reccount == st.reccount + 1 && |r.buf| == |st.buf| && |r.tags| == |st.tags|
      && (forall k | 0 <= k < |st.buf| ::
            if at <= k < at + |data| then r.buf[k] == data[k - at] && r.tags[k]
            else r.buf[k] == st.buf[k] && r.tags[k] == st.tags[k])
      && r.max == Max(st.max, at + |data|)
  {
  }

  function WithoutLast(lines: seq<string>): seq<string> {
    if lines == [] then [] else lines[..|lines| - 1]
  }

  /** The load returned the size of buf, restored its bytes and tagged exactly those. */
  predicate Restored(s: Step, buf: seq<octet>, mem: seq<octet>, tags: seq<bool>)
    requires |buf| <= |mem| == |tags|
  {
    && s.Finish? && s.rc == |buf|
    && s.st.buf == buf + mem[|buf|..]
    && s.st.tags == seq(|buf|, _ => true) + tags[|buf|..]
  }

  /** The lines that b2srec prints, without the last, load the same bytes. */
  lemma MissingEndLine(buf: seq<octet>, recsize: nat, mem: seq<octet>, tags: seq<bool>)
    requires 0 < recsize < 256 && |buf| < 0x100_0000 && |buf| <= |mem| == |tags| && Fits(|buf|, recsize)
    ensures Restored(Load(WithoutLast(SLines(buf, 0, recsize)), LoadState(mem, tags, 0, 0)), buf, mem, tags)
  {
    hide SLines, Load, Fits, Restored;
    FitsMeansAllFit(|buf|, recsize);
    assert buf[..0] + mem[0..] == mem && seq(0, _ => true) + tags[0..] == tags;
    LoadWithoutEnd(buf, tags, mem, 0, recsize, LoadState(mem, tags, 0, 0));
  }

  lemma {:induction false} LoadWithoutEnd(buf: seq<octet>, tags: seq<bool>, mem: seq<octet>, addr: nat, recsize: nat, st: LoadState)
    requires Loaded(st, buf, tags, mem, addr) && |buf| < 0x100_0000 && 0 < recsize < 256 && AllFit(|buf|, addr, recsize)
    ensures SLines(buf, addr, recsize) != []
    ensures Restored(Load(WithoutLast(SLines(buf, addr, recsize)), st), buf, mem, tags)
    decreases |buf| - addr
  {
    hide ReadOneLine, DataLine, EndLine;
    if addr == |buf| {
      assert buf[..addr] == buf;
    } else {
      SplitLines(buf, addr, recsize);
      hide SLines, Load, Restored;
      var n := Min(recsize, |buf| - addr);
      var line, rest := DataLine(addr, buf[addr..addr + n]), SLines(buf, addr + n, recsize);
      FitsAtMost(addr, n);
      DataRead(st, buf, tags, mem, addr, n);
      LoadWithoutEnd(buf, tags, mem, addr + n, recsize, ReadOneLine(line, st).st);
      assert WithoutLast([line] + rest) == [line] + WithoutLast(rest);
      LoadNext(line, WithoutLast(rest), st);
    }
  }

  // ----- some lines, character by character

  lemma LineTexts()
    ensures EndLine() == "S9030000FC"
    ensures Line('1', 2, 0x1234, [0xab]) == "S1041234AB0A"
    ensures Line('2', 3, 0x012345, [0xab]) == "S205012345ABE6"
  {
    hide HexAll, Hex2, Sum, Bytes;
    ExampleBytes();
    ExampleDigits();
    HeaderText(3, 0, 0, 0xfc);
    HeaderText(4, 0x12, 0x34, 0xab);
    HexAllLast([4, 0x12, 0x34, 0xab], 0x0a);
    HeaderText(5, 1, 0x23, 0x45);
    HexAllLast([5, 1, 0x23, 0x45], 0xab);
    HexAllLast([5, 1, 0x23, 0x45] + [0xab], 0xe6);
  }

  lemma ExampleBytes()
    ensures Bytes(2, 0, []) == [3, 0, 0, 0xfc]
    ensures Bytes(2, 0x1234, [0xab]) == [4, 0x12, 0x34, 0xab] + [0x0a]
    ensures Bytes(3, 0x012345, [0xab]) == [5, 1, 0x23, 0x45] + [0xab] + [0xe6]
  {
    hide Sum;
    var none: seq<octet> := [];
    assert AddressBytes(2, 0) == [0, 0];
    assert Body(2, 0, none) == [3, 0] + [0];
    SumLast([3, 0], 0);
    assert [3] + [0] == [3, 0];
    SumLast([3], 0);
    SumOfOne(3);
    HeaderSum(4, 0x12, 0x34, 0xab);
    assert AddressBytes(2, 0x1234) == [0x12, 0x34];
    assert Body(2, 0x1234, [0xab]) == [4, 0x12, 0x34, 0xab];
    HeaderSum(5, 1, 0x23, 0x45);
    SumLast([5, 1, 0x23, 0x45], 0xab);
    assert ByteAt(0x012345, 2) == 1 && ByteAt(0x012345, 1) == 0x23 && ByteAt(0x012345, 0) == 0x45;
    assert AddressBytes(3, 0x012345) == [1, 0x23, 0x45];
    assert Body(3, 0x012345, [0xab]) == [5, 1, 0x23, 0x45] + [0xab];
  }

  lemma SumOfOne(b: octet)
    ensures Sum([b]) == b
  {
    assert [b][..0] == [];
  }

  lemma ExampleDigits()
    ensures Hex2(0) == "00" && Hex2(1) == "01" && Hex2(3) == "03" && Hex2(4) == "04" && Hex2(5) == "05"
    ensures Hex2(0x0a) == "0A" && Hex2(0x12) == "12" && Hex2(0x23) == "23" && Hex2(0x34) == "34" && Hex2(0x45) == "45"
    ensures Hex2(0xab) == "AB" && Hex2(0xe6) == "E6" && Hex2(0xfc) == "FC"
  {
  }
}
