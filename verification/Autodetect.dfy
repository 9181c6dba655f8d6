/** fmt_autodetect: guessing the format of an input file. */
module Autodetect {
  import opened CText
  import opened HexRecords
  import IntelHex
  import SRecord

  datatype Format = Srec | Ihex | Rbin | Elf | Unknown

  predicate IsDigit(c: char) {
    '0' <= c <= '9'
  }

  predicate IsXdigit(c: char) {
    IsDigit(c) || 'a' <= c <= 'f' || 'A' <= c <= 'F'
  }

  predicate IsElf(line: string) {
    |line| >= 4 && line[..4] == [127 as char, 'E', 'L', 'F']
  }

  predicate IsBinary(line: string) {
    exists i | 0 <= i < |line| :: line[i] as nat > 127
  }

  /** The loop over the digits of a line looks at its second character only. */
  predicate LooksLikeIhex(line: string) {
    |line| >= 11 && line[0] == ':' && IsXdigit(line[1])
  }

  predicate LooksLikeSrec(line: string) {
    |line| >= 10 && line[0] == 'S' && IsDigit(line[1])
  }

  /** The format that one line decides, if it does. */
  function Classify(line: string, first: bool): Format {
    if first && IsElf(line) then Elf
    else if IsBinary(line) then Rbin
    else if LooksLikeIhex(line) then Ihex
    else if LooksLikeSrec(line) then Srec
    else Unknown
  }

  function Detect(lines: seq<string>, first: bool): Format {
    if lines == [] then Unknown
    else
      var f := Classify(lines[0], first);
      if f != Unknown then f else Detect(lines[1..], false)
  }

  /** The loop of fmt_autodetect over the text of the file. */
  method FmtAutodetect(text: string) returns (f: Format)
    ensures f == Detect(Lines(text), true)
  {
    hide Lines;
    var pos, first := 0, true;
    assert text[0..] == text;
    while pos < |text|
      invariant 0 <= pos <= |text|
      invariant Detect(Lines(text[pos..]), first) == Detect(Lines(text), true)
    {
      var line, next := Fgets(text, pos);
      assert Lines(text[pos..])[1..] == Lines(text[next..]);
      if first && IsElf(line) {
        return Elf;
      }
      var i, found := 0, false;
      while i < |line| && !found
        invariant 0 <= i <= |line|
        invariant found ==> IsBinary(line)
        invariant !found ==> forall k | 0 <= k < i :: line[k] as nat <= 127
        decreases |line| - i, !found
      {
        if line[i] as nat > 127 {
          found := true;
        } else {
          i := i + 1;
        }
      }
      if found {
        return Rbin;
      }
      if |line| >= 11 && line[0] == ':' {
        found := AllXdigits(line);
        if found {
          return Ihex;
        }
      }
      if |line| >= 10 && line[0] == 'S' && IsDigit(line[1]) {
        found := AllXdigits(line);
        if found {
          return Srec;
        }
      }
      first, pos := false, next;
    }
    assert text[pos..] == "";
    NoLines();
    f := Unknown;
  }

  /** The loop that is meant to test every digit; its subscript does not move. */
  method AllXdigits(line: string) returns (found: bool)
    requires |line| >= 2
    ensures found == IsXdigit(line[1])
  {
    found := true;
    var i := 1;
    while i < |line|
      invariant 1 <= i <= |line|
      invariant i > 1 ==> IsXdigit(line[1])
    {
      if !IsXdigit(line[1]) {
        return false;
      }
      i := i + 1;
    }
  }

  // ----- what the writers print is recognised

  /** What fgets sees first of a text that starts with a line. */
  lemma FirstPiece(line: string, rest: string)
    requires '\n' !in line
    ensures var lines := Lines(line + "\n" + rest);
      lines != [] && lines[0] == if |line| < MAX_LINE_LEN then line else line[..MAX_LINE_LEN - 1]
  {
    hide Lines;
    if |line| + 1 < MAX_LINE_LEN {
      FirstLine(line, rest);
    } else if |line| < MAX_LINE_LEN {
      FullLine(line, rest);
    } else {
      LongLine(line, rest);
    }
  }

  lemma Plain(prefix: string, bs: seq<octet>)
    requires !IsBinary(prefix) && '\n' !in prefix
    ensures !IsBinary(prefix + HexAll(bs)) && '\n' !in prefix + HexAll(bs)
    ensures bs != [] ==> IsXdigit(HexAll(bs)[0])
  {
    hide HexAll;
    HexAllUpper(bs);
    var s := HexAll(bs);
    forall i | 0 <= i < |prefix + s|
      ensures (prefix + s)[i] as nat <= 127 && (prefix + s)[i] != '\n'
    {
      if i < |prefix| {
        assert prefix[i] in prefix;
      } else {
        assert (prefix + s)[i] == s[i - |prefix|];
      }
    }
  }

  lemma PieceNotBinary(line: string, n: nat)
    requires !IsBinary(line) && n <= |line|
    ensures !IsBinary(line[..n])
  {
  }

  /** The text of b2ihex, of any buffer and record size, is taken for Intel HEX. */
  lemma HexTextDetected(buf: seq<octet>, recsize: nat)
    requires 0 < recsize < 256
    ensures Detect(Lines(IntelHex.HexText(buf, recsize)), true) == Ihex
  {
    hide Lines, HexAll, IntelHex.Records, IntelHex.RecordLines, IntelHex.Record, Joined;
    IntelHex.RecordsSplit(buf, 0, 0, 0, recsize);
    var recs := IntelHex.Records(buf, 0, 0, 0, recsize);
    var rec := recs[0];
    assert recs == [rec] + recs[1..];
    IntelHex.JoinedFirst(rec, recs[1..]);
    Plain(":", rec);
    var line := IntelHex.Line(rec);
    FirstPiece(line, Joined(IntelHex.RecordLines(recs[1..])));
    if |line| >= MAX_LINE_LEN {
      PieceNotBinary(line, MAX_LINE_LEN - 1);
    }
  }

  /** The text of b2srec is taken for S-records. */
  lemma STextDetected(buf: seq<octet>, recsize: nat)
    requires 0 < recsize < 256
    ensures Detect(Lines(SRecord.SText(buf, recsize)), true) == Srec
  {
    hide Lines, SRecord.SLines, SRecord.DataLine, SRecord.EndLine, Joined;
    SRecord.JoinedNext(buf, 0, recsize);
    if buf == [] {
      EndStarts();
      assert SRecord.EndLine() + "\n" == SRecord.EndLine() + "\n" + "";
      SLineDetected(SRecord.EndLine(), "");
    } else {
      var n := Min(recsize, |buf|);
      DataStarts(0, buf[0..n]);
      SLineDetected(SRecord.DataLine(0, buf[0..n]), Joined(SRecord.SLines(buf, n, recsize)));
    }
  }

  predicate GoodStart(line: string) {
    '\n' !in line && !IsBinary(line) && LooksLikeSrec(line)
  }

  lemma SLineDetected(line: string, rest: string)
    requires GoodStart(line)
    ensures Detect(Lines(line + "\n" + rest), true) == Srec
  {
    hide Lines;
    FirstPiece(line, rest);
    if |line| >= MAX_LINE_LEN {
      PieceNotBinary(line, MAX_LINE_LEN - 1);
    }
  }

  lemma LineStarts(typ: char, width: nat, addr: nat, data: seq<octet>)
    requires IsDigit(typ) && 2 <= width <= 4 && |data| < 256
    ensures GoodStart(SRecord.Line(typ, width, addr, data))
  {
    hide HexAll, SRecord.Complement, ByteSum;
    var prefix := "S" + [typ] + (if |data| + width + 1 < 256 then "" else "1");
    Plain(prefix, SRecord.Bytes(width, addr, data));
  }

  lemma DataStarts(addr: nat, data: seq<octet>)
    requires |data| < 256
    ensures GoodStart(SRecord.DataLine(addr, data))
  {
    hide SRecord.Line, GoodStart;
    LineStarts('1', 2, addr, data);
    LineStarts('2', 3, addr, data);
  }

  lemma EndStarts()
    ensures GoodStart(SRecord.EndLine())
  {
    hide SRecord.Line, GoodStart;
    LineStarts('9', 2, 0, []);
  }

  /** The second character decides, whatever the rest of a plain line of that length says. */
  lemma OneDigitDecides(line: string, more: seq<string>, first: bool)
    requires |line| >= 11 && line[0] == ':' && !IsBinary(line)
    ensures IsXdigit(line[1]) <==> Detect([line] + more, first) == Ihex && Classify(line, first) == Ihex
  {
    hide IsBinary, IsXdigit;
    assert ([line] + more)[1..] == more;
    assert line[..4][0] == ':';
  }

  /** So a line of prose is taken for Intel HEX. */
  lemma ProseTakenForHex()
    ensures Detect([":0 is not hex"], true) == Ihex
  {
    var line := ":0 is not hex";
    assert !IsBinary(line);
    OneDigitDecides(line, [], true);
    assert [line] + [] == [line];
  }

  predicate Undecided(line: string) {
    !IsBinary(line) && !LooksLikeIhex(line) && !LooksLikeSrec(line)
  }

  /** An ELF magic number counts on the first line only, and there it comes before everything else. */
  lemma {:induction false} ElfExactly(lines: seq<string>, first: bool)
    ensures Detect(lines, first) == Elf <==> first && lines != [] && |lines[0]| >= 4 && lines[0][..4] == "\U{7F}ELF"
    decreases |lines|
  {
    hide IsBinary;
    ElfMagic();
    if lines != [] {
      ElfExactly(lines[1..], false);
    }
  }

  lemma ElfMagic()
    ensures [127 as char, 'E', 'L', 'F'] == "\U{7F}ELF"
  {
  }

  /** Line k holds a character above 127, and no line before it decides. */
  predicate BinaryLine(lines: seq<string>, k: nat)
    requires k < |lines|
  {
    (exists i | 0 <= i < |lines[k]| :: lines[k][i] as nat > 127) && forall m | 0 <= m < k :: Undecided(lines[m])
  }

  /** A file without an ELF magic number is binary exactly if some line holds a character above 127
      before any line looks like another format. */
  lemma {:induction false} BinaryExactly(lines: seq<string>, first: bool)
    ensures Detect(lines, first) == Rbin <==>
      !(first && lines != [] && IsElf(lines[0])) && exists k: nat | k < |lines| :: BinaryLine(lines, k)
    decreases |lines|
  {
    hide IsElf, LooksLikeIhex, LooksLikeSrec, BinaryLine;
    if lines != [] {
      BinaryExactly(lines[1..], false);
      BinaryNow(lines);
      BinaryLater(lines);
    }
  }

  lemma BinaryNow(lines: seq<string>)
    requires lines != []
    ensures BinaryLine(lines, 0) <==> IsBinary(lines[0])
    ensures !Undecided(lines[0]) ==> forall k: nat | 0 < k < |lines| :: !BinaryLine(lines, k)
  {
  }

  lemma BinaryLater(lines: seq<string>)
    requires lines != []
    ensures (exists k: nat | 0 < k < |lines| :: BinaryLine(lines, k)) <==>
      Undecided(lines[0]) && exists k: nat | k < |lines[1..]| :: BinaryLine(lines[1..], k)
  {
    hide Undecided, BinaryLine;
    forall k: nat | k < |lines[1..]|
      ensures Undecided(lines[0]) ==> (BinaryLine(lines[1..], k) <==> BinaryLine(lines, k + 1))
    {
      if Undecided(lines[0]) {
        LineLater(lines, k);
      }
    }
    BinaryNow(lines);
    if k: nat :| 0 < k < |lines| && BinaryLine(lines, k) {
      assert Undecided(lines[0]) && k - 1 < |lines[1..]|;
      assert BinaryLine(lines[1..], k - 1) <==> BinaryLine(lines, k - 1 + 1);
    }
  }

  lemma LineLater(lines: seq<string>, k: nat)
    requires k + 1 < |lines| && Undecided(lines[0])
    ensures BinaryLine(lines[1..], k) <==> BinaryLine(lines, k + 1)
  {
    hide Undecided;
    if BinaryLine(lines[1..], k) {
      forall m | 0 <= m < k + 1
        ensures Undecided(lines[m])
      {
        if m > 0 {
          assert lines[m] == lines[1..][m - 1];
        }
      }
    }
    if BinaryLine(lines, k + 1) {
      forall m | 0 <= m < k
        ensures Undecided(lines[1..][m])
      {
        assert Undecided(lines[m + 1]);
      }
    }
  }

  /** Lines too short for a record decide nothing: fewer than ten characters, or ten without an S in front. */
  lemma {:induction false} ShortLinesDecideNothing(lines: seq<string>, first: bool)
    requires forall l | l in lines :: |l| < 10 || (|l| == 10 && l[0] != 'S')
    requires forall l | l in lines :: forall i | 0 <= i < |l| :: l[i] as nat <= 126
    ensures Detect(lines, first) == Unknown
    decreases |lines|
  {
    if lines != [] {
      assert lines[0] in lines;
      forall l | l in lines[1..]
        ensures l in lines
      {
      }
      assert |lines[0]| >= 4 ==> lines[0][..4][0] != 127 as char;
      ShortLinesDecideNothing(lines[1..], false);
    }
  }
}
