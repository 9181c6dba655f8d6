/** What the Intel HEX and S-record code of fileio.c share: hexadecimal byte fields,
    checksums in an unsigned char, the data loop of the parsers, and fgets. */
module HexRecords {
  import opened Options
  import opened CText
  import Division

  const IHEX_MAXDATA: nat := 256

  function Plus(c: octet, b: octet): octet {
    (c + b) % 256
  }

  function ByteSum(bs: seq<octet>): octet {
    Sum(bs) % 256
  }

  /** Negation and addition of unsigned char. */
  function Negated(c: octet): octet {
    (256 - c) % 256
  }

  function Min(a: nat, b: nat): nat {
    if a < b then a else b
  }

  function Max(a: nat, b: nat): nat {
    if a < b then b else a
  }

  function Field(rec: string, off: nat, n: nat): Option<nat> {
    if off + n > |rec| then None else HexField(rec[off..off + n])
  }

  function ByteField(rec: string, off: nat): Option<octet> {
    match Field(rec, off, 2)
    case None => None
    case Some(v) => Some(v % 256)
  }

  function ReadBytes(rec: string, off: nat, n: nat): (r: Option<seq<octet>>)
    ensures r.Some? ==> |r.value| == n
    decreases n
  {
    if n == 0 then Some([])
    else
      match (ByteField(rec, off), ReadBytes(rec, off + 2, n - 1))
      case (Some(b), Some(bs)) => Some([b] + bs)
      case _ => None
  }

  /** Reading a field of a line that starts with a prefix and then spells rec. */
  lemma LineField(prefix: string, rec: seq<octet>, i: nat, j: nat)
    requires i < j <= |rec| && j - i <= 4
    ensures Field(prefix + HexAll(rec), |prefix| + 2 * i, 2 * (j - i)) == Some(BigEndian(rec[i..j]))
  {
    hide HexField, HexAll, BigEndian;
    HexAllSlice(rec, i, j);
    PrintedField(rec[i..j]);
    var s := HexAll(rec);
    assert (prefix + s)[|prefix| + 2 * i..|prefix| + 2 * j] == s[2 * i..2 * j];
  }

  lemma LineByte(prefix: string, rec: seq<octet>, i: nat)
    requires i < |rec|
    ensures ByteField(prefix + HexAll(rec), |prefix| + 2 * i) == Some(rec[i])
  {
    hide Field, HexAll;
    LineField(prefix, rec, i, i + 1);
    assert rec[i..i + 1] == [rec[i]];
    BigEndianShort(rec[i], 0);
  }

  lemma {:induction false} LineBytes(prefix: string, rec: seq<octet>, i: nat, n: nat)
    requires i + n <= |rec|
    ensures ReadBytes(prefix + HexAll(rec), |prefix| + 2 * i, n) == Some(rec[i..i + n])
    decreases n
  {
    hide ByteField, HexAll;
    if n == 0 {
      assert rec[i..i] == [];
    } else {
      LineByte(prefix, rec, i);
      LineBytes(prefix, rec, i + 1, n - 1);
      assert rec[i..i + n] == [rec[i]] + rec[i + 1..i + 1 + (n - 1)];
      assert ReadBytes(prefix + HexAll(rec), |prefix| + 2 * i + 2, n - 1) == Some(rec[i + 1..i + 1 + (n - 1)]);
    }
  }

  function Word(hi: nat, lo: nat): nat {
    hi * 256 + lo
  }

  lemma BigEndianShort(a: octet, b: octet)
    ensures BigEndian([a]) == a && BigEndian([a, b]) == Word(a, b)
  {
    assert [a][..0] == [] && [a, b][..1] == [a];
  }

  lemma WordBytes(a: octet, b: octet)
    ensures Word(a, b) / 256 % 256 == a && Word(a, b) % 256 == b && Word(a, b) < 0x1_0000
  {
  }

  function High(w: nat): octet {
    w / 256 % 256
  }

  function Low(w: nat): octet {
    w % 256
  }

  lemma HexAllLast(bs: seq<octet>, b: octet)
    ensures HexAll(bs + [b]) == HexAll(bs) + Hex2(b)
  {
    HexAllAppend(bs, [b]);
    assert [b][1..] == [];
  }

  lemma HeaderText(a: octet, b: octet, c: octet, d: octet)
    ensures HexAll([a, b, c, d]) == Hex2(a) + Hex2(b) + Hex2(c) + Hex2(d)
  {
    hide Hex2;
    HexAllLast([], a);
    HexAllLast([a], b);
    HexAllLast([a, b], c);
    HexAllLast([a, b, c], d);
    assert [] + [a] == [a] && [a] + [b] == [a, b] && [a, b] + [c] == [a, b, c] && [a, b, c] + [d] == [a, b, c, d];
  }

  lemma SumLast(bs: seq<octet>, b: octet)
    ensures Sum(bs + [b]) == Sum(bs) + b
  {
    assert (bs + [b])[..|bs|] == bs;
  }

  lemma HeaderSum(a: octet, b: octet, c: octet, d: octet)
    ensures Sum([a, b, c, d]) == a + b + c + d
  {
    SumLast([], a);
    SumLast([a], b);
    SumLast([a, b], c);
    SumLast([a, b, c], d);
    assert [] + [a] == [a] && [a] + [b] == [a, b] && [a, b] + [c] == [a, b, c] && [a, b, c] + [d] == [a, b, c, d];
  }

  lemma ByteSumLast(bs: seq<octet>, b: octet)
    ensures ByteSum(bs + [b]) == Plus(ByteSum(bs), b)
  {
    SumLast(bs, b);
  }

  lemma HeaderByteSum(a: octet, b: octet, c: octet, d: octet)
    ensures ByteSum([a, b, c, d]) == Plus(Plus(Plus(a, b), c), d)
  {
    hide Sum;
    HeaderSum(a, b, c, d);
    PlusPlus(a, b, c, d);
  }

  lemma PlusPlus(a: octet, b: octet, c: octet, d: octet)
    ensures Plus(Plus(Plus(a, b), c), d) == (a + b + c + d) % 256
  {
    PlusMod(a + b, c);
    PlusMod(a + b + c, d);
  }

  lemma PlusMod(x: nat, y: octet)
    ensures Plus(x % 256, y) == (x + y) % 256
  {
    Division.AddMultiple(256, x / 256, x % 256 + y);
    assert x + y == 256 * (x / 256) + (x % 256 + y);
  }

  lemma OneMore(head: seq<octet>, data: seq<octet>, b: octet)
    ensures HexAll(head + (data + [b])) == HexAll(head + data) + Hex2(b)
    ensures ByteSum(head + (data + [b])) == Plus(ByteSum(head + data), b)
  {
    HexAllLast(head + data, b);
    ByteSumLast(head + data, b);
    assert head + data + [b] == head + (data + [b]);
  }

  lemma TwoMore(head: seq<octet>, hi: octet, lo: octet)
    ensures HexAll(head + [hi, lo]) == HexAll(head) + Hex2(hi) + Hex2(lo)
    ensures ByteSum(head + [hi, lo]) == Plus(Plus(ByteSum(head), hi), lo)
  {
    hide HexAll, Hex2, ByteSum, Plus;
    OneMore(head, [], hi);
    OneMore(head, [hi], lo);
    assert head + [] == head && [] + [hi] == [hi] && [hi] + [lo] == [hi, lo];
  }

  /** The steps the parser repeats for each field: a length test, a copy and strtoul. */
  method ParseField(rec: string, offset: nat, n: nat) returns (ok: bool, v: nat)
    ensures ok == Field(rec, offset, n).Some?
    ensures ok ==> v == Field(rec, offset, n).value
  {
    hide HexField;
    if offset + n > |rec| {
      return false, 0;
    }
    var f := HexField(rec[offset..offset + n]);
    if f.None? {
      return false, 0;
    }
    return true, f.value;
  }

  function Prepend(front: seq<octet>, rest: Option<seq<octet>>): Option<seq<octet>> {
    if rest.None? then None else Some(front + rest.value)
  }

  /** The data loop of a record parser, started with checksum sum; head are the bytes summed so far. */
  method ReadData(rec: string, start: nat, n: octet, data: array<octet>, sum: octet, ghost head: seq<octet>)
    returns (ok: bool, cksum: octet)
    requires data.Length == IHEX_MAXDATA && sum == ByteSum(head)
    modifies data
    ensures ok == ReadBytes(rec, start, n).Some?
    ensures ok ==> data[..n] == ReadBytes(rec, start, n).value && cksum == ByteSum(head + data[..n])
    ensures data[n..] == old(data[n..])
  {
    hide Field, ByteSum, Plus;
    var offset, j := start, 0;
    ok, cksum := true, sum;
    assert data[..0] == [] && head + [] == head;
    PrependNothing(ReadBytes(rec, start, n));
    while j < n
      invariant 0 <= j <= n && offset == start + 2 * j && ok
      invariant ReadBytes(rec, start, n) == Prepend(data[..j], ReadBytes(rec, offset, n - j))
      invariant cksum == ByteSum(head + data[..j])
      invariant data[n..] == old(data[n..])
    {
      var v;
      ok, v := ParseField(rec, offset, 2);
      if !ok { return; }
      ghost var done := data[..j];
      PrependOne(done, v % 256, ReadBytes(rec, offset + 2, n - j - 1));
      OneMore(head, done, v % 256);
      data[j] := v % 256;
      assert data[..j + 1] == done + [v % 256];
      offset := offset + 2;
      cksum := Plus(cksum, data[j]);
      j := j + 1;
    }
    assert data[..n] + [] == data[..n];
  }

  lemma PrependNothing(rest: Option<seq<octet>>)
    ensures Prepend([], rest) == rest
  {
    if rest.Some? {
      assert [] + rest.value == rest.value;
    }
  }

  lemma PrependOne(front: seq<octet>, b: octet, rest: Option<seq<octet>>)
    ensures Prepend(front + [b], rest) == Prepend(front, Prepend([b], rest))
  {
    if rest.Some? {
      assert front + [b] + rest.value == front + ([b] + rest.value);
    }
  }

  /** The number of characters fgets takes into a buffer of MAX_LINE_LEN. */
  method Fgets(text: string, pos: nat) returns (line: string, next: nat)
    requires pos < |text|
    ensures pos < next <= |text|
    ensures Lines(text[pos..]) == [line] + Lines(text[next..])
  {
    var n := 0;
    next := pos;
    ghost var rest := text[pos..];
    while next < |text| && n < MAX_LINE_LEN - 1 && (n == 0 || text[next - 1] != '\n')
      invariant next == pos + n <= |text| && n <= MAX_LINE_LEN - 1
      invariant LineLength(rest, MAX_LINE_LEN - 1) ==
        if n > 0 && text[next - 1] == '\n' then n else n + LineLength(text[next..], MAX_LINE_LEN - 1 - n)
    {
      assert text[next..][0] == text[next] && text[next..][1..] == text[next + 1..];
      n, next := n + 1, next + 1;
    }
    assert rest[..n] == text[pos..next] && rest[n..] == text[next..];
    line := Chomp(text[pos..next]);
  }

  lemma NoLines()
    ensures Lines("") == []
  {
  }

  /** Copies a record's data into the memory and tags it. */
  method CopyIn(buf: array<octet>, tags: array<bool>, data: array<octet>, at: nat, n: nat)
    requires buf.Length == tags.Length && at + n <= buf.Length && n <= data.Length && data != buf
    modifies buf, tags
    ensures buf[..] == old(buf[..at]) + data[..n] + old(buf[at + n..])
    ensures tags[..] == old(tags[..at]) + seq(n, _ => true) + old(tags[at + n..])
  {
    var i := 0;
    while i < n
      invariant 0 <= i <= n
      invariant forall k | at <= k < at + i :: buf[k] == data[k - at] && tags[k]
      invariant forall k | 0 <= k < buf.Length && !(at <= k < at + i) :: buf[k] == old(buf[k]) && tags[k] == old(tags[k])
    {
      buf[at + i] := data[i];
      tags[at + i] := true;
      i := i + 1;
    }
  }

  // ----- addresses are unsigned ints

  const UINT_RANGE: nat := 0x1_0000_0000

  function Wrapped(x: nat): (r: nat)
    ensures r < UINT_RANGE
  {
    x % UINT_RANGE
  }

  /** The readers' test before they store len bytes at address at. */
  predicate BoundsTest(at: nat, len: nat, size: nat) {
    Wrapped(at + len) <= size
  }

  /** The test keeps the store inside the memory exactly if the end of the data does not wrap
      around; an end that does not wrap passes exactly if it is inside. */
  lemma BoundsTestProtects(at: nat, len: nat, size: nat)
    requires at < UINT_RANGE && len < 256 && size < UINT_RANGE
    ensures BoundsTest(at, len, size) ==> (at + len <= size <==> at + len < UINT_RANGE)
    ensures at + len < UINT_RANGE ==> (BoundsTest(at, len, size) <==> at + len <= size)
    ensures at + len >= UINT_RANGE && len <= size ==> BoundsTest(at, len, size) && at + len > size
  {
    if at + len >= UINT_RANGE {
      Division.AddMultiple(UINT_RANGE, 1, at + len - UINT_RANGE);
      Division.Unique(at + len - UINT_RANGE, UINT_RANGE, 0, at + len - UINT_RANGE);
    } else {
      Division.Unique(at + len, UINT_RANGE, 0, at + len);
    }
  }

  lemma WrapsOnce(x: nat)
    requires UINT_RANGE <= x < 2 * UINT_RANGE
    ensures Wrapped(x) == x - UINT_RANGE
  {
  }

  lemma NoWrap(at: nat, len: nat, size: nat)
    requires at + len <= size && at + len < UINT_RANGE
    ensures Wrapped(at) == at && BoundsTest(at, len, size)
  {
  }

  datatype Verdict = Stored | Refused | Outside

  /** The end of both readers' loops for a data record: test, store, and keep the highest address. */
  method StoreData(buf: array<octet>, tags: array<bool>, data: array<octet>, nextaddr: nat, n: nat, max: nat)
    returns (v: Verdict, maxaddr: nat)
    requires buf.Length == tags.Length && n <= data.Length && data != buf
    modifies buf, tags
    ensures v == if !BoundsTest(nextaddr, n, buf.Length) then Refused else if nextaddr + n > buf.Length then Outside else Stored
    ensures v != Stored ==> buf[..] == old(buf[..]) && tags[..] == old(tags[..]) && maxaddr == max
    ensures v == Stored ==>
      && buf[..] == old(buf[..])[..nextaddr] + data[..n] + old(buf[..])[nextaddr + n..]
      && tags[..] == old(tags[..])[..nextaddr] + seq(n, _ => true) + old(tags[..])[nextaddr + n..]
      && maxaddr == if nextaddr + n > max then nextaddr + n else max
  {
    hide BoundsTest;
    maxaddr := max;
    if !BoundsTest(nextaddr, n, buf.Length) {
      return Refused, max;
    }
    if nextaddr + n > buf.Length {
      return Outside, max;
    }
    CopyIn(buf, tags, data, nextaddr, n);
    if nextaddr + n > maxaddr {
      maxaddr := nextaddr + n;
    }
    v := Stored;
  }
}
