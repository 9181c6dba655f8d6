/** The C library text functions the file formats rest on: strtoul, fgets into a
    buffer of MAX_LINE_LEN, and hexadecimal printing. */
module CText {
  import opened Options

  const MAX_LINE_LEN: nat := 256
  const ULONG_MAX: nat := 0xffff_ffff_ffff_ffff

  type octet = x: int | 0 <= x < 256

  // ----- strtoul

  predicate IsSpace(c: char) {
    c == ' ' || '\t' <= c <= '\r'
  }

  /** The value of a digit in bases up to 36, or 36. */
  function DigitValue(c: char): (v: nat)
    ensures v <= 36
  {
    if '0' <= c <= '9' then c as nat - '0' as nat
    else if 'a' <= c <= 'z' then c as nat - 'a' as nat + 10
    else if 'A' <= c <= 'Z' then c as nat - 'A' as nat + 10
    else 36
  }

  /** The number of leading digits of s in the given base. */
  function DigitCount(s: string, base: nat): (n: nat)
    ensures n <= |s|
  {
    if s == [] || DigitValue(s[0]) >= base then 0 else 1 + DigitCount(s[1..], base)
  }

  /** The number that digits spell. */
  function ValueOf(s: string, base: nat): nat {
    if s == [] then 0 else ValueOf(s[..|s| - 1], base) * base + DigitValue(s[|s| - 1])
  }

  datatype Number = Number(value: nat, used: nat)

  function SkipSpace(s: string): (n: nat)
    ensures n <= |s|
  {
    if s != [] && IsSpace(s[0]) then 1 + SkipSpace(s[1..]) else 0
  }

  function HasHexPrefix(s: string): bool {
    |s| >= 3 && s[0] == '0' && (s[1] == 'x' || s[1] == 'X') && DigitValue(s[2]) < 16
  }

  /** strtoul for base 0, 2 or 16: the value and the number of characters used, 0 if there is no number. */
  function Strtoul(s: string, base: nat): (r: Number)
    requires base == 0 || base == 2 || base == 16
    ensures r.used <= |s|
  {
    var k := SkipSpace(s);
    var signed := k < |s| && (s[k] == '+' || s[k] == '-');
    var start := if signed then k + 1 else k;
    var t := s[start..];
    var prefix := if base != 2 && HasHexPrefix(t) then 2 else 0;
    var b := if prefix == 2 then 16 else if base == 0 then (if t != [] && t[0] == '0' then 8 else 10) else base;
    var n := DigitCount(t[prefix..], b);
    if n == 0 then Number(0, 0)
    else
      var v := ValueOf(t[prefix..][..n], b);
      var c := if v > ULONG_MAX then ULONG_MAX else v;
      Number(if signed && s[k] == '-' && c > 0 && v <= ULONG_MAX then ULONG_MAX + 1 - c else c, start + prefix + n)
  }

  /** The readers' test: the whole field must be one number. */
  function HexField(s: string): Option<nat> {
    var r := Strtoul(s, 16);
    if r.used == 0 || r.used != |s| then None else Some(r.value)
  }

  // ----- printing

  const UPPER_DIGITS: string := "0123456789ABCDEF"

  function HexDigit(d: nat): char
    requires d < 16
  {
    UPPER_DIGITS[d]
  }

  /** %02X of a byte. */
  function Hex2(b: octet): (s: string)
    ensures |s| == 2
  {
    [HexDigit(b / 16), HexDigit(b % 16)]
  }

  function HexAll(bs: seq<octet>): (s: string)
    ensures |s| == 2 * |bs|
  {
    if bs == [] then [] else Hex2(bs[0]) + HexAll(bs[1..])
  }

  lemma {:induction false} HexAllAppend(a: seq<octet>, b: seq<octet>)
    ensures HexAll(a + b) == HexAll(a) + HexAll(b)
  {
    hide Hex2;
    if a == [] {
      assert a + b == b;
    } else {
      HexAllAppend(a[1..], b);
      assert (a + b)[1..] == a[1..] + b;
    }
  }

  lemma {:induction false} HexAllSlice(bs: seq<octet>, i: nat, j: nat)
    requires i <= j <= |bs|
    ensures HexAll(bs)[2 * i..2 * j] == HexAll(bs[i..j])
  {
    assert bs == bs[..i] + bs[i..j] + bs[j..];
    HexAllAppend(bs[..i] + bs[i..j], bs[j..]);
    HexAllAppend(bs[..i], bs[i..j]);
  }

  predicate UpperHex(s: string) {
    forall i | 0 <= i < |s| :: '0' <= s[i] <= '9' || 'A' <= s[i] <= 'F'
  }

  lemma HexDigitValue(d: nat)
    requires d < 16
    ensures DigitValue(HexDigit(d)) == d && UpperHex([HexDigit(d)])
  {
  }

  lemma {:induction false} HexAllUpper(bs: seq<octet>)
    ensures UpperHex(HexAll(bs))
  {
    if bs != [] {
      HexDigitValue(bs[0] / 16);
      HexDigitValue(bs[0] % 16);
      HexAllUpper(bs[1..]);
    }
  }

  lemma {:induction false} UpperHexCount(s: string)
    requires UpperHex(s)
    ensures DigitCount(s, 16) == |s|
  {
    if s != [] {
      UpperHexCount(s[1..]);
    }
  }

  /** A field of upper-case digits is read back as the number they spell. */
  lemma UpperHexField(s: string)
    requires UpperHex(s) && 0 < |s| <= 8
    ensures HexField(s) == Some(ValueOf(s, 16))
  {
    UpperHexCount(s);
    SmallValue(s, 16);
    assert s[0..] == s && s[..|s|] == s;
    assert !IsSpace(s[0]) && s[0] != '+' && s[0] != '-';
    assert !HasHexPrefix(s);
  }

  function Power(b: nat, n: nat): nat {
    if n == 0 then 1 else b * Power(b, n - 1)
  }

  lemma {:induction false} ValueBelowPower(s: string, base: nat)
    requires forall i | 0 <= i < |s| :: DigitValue(s[i]) < base
    ensures ValueOf(s, base) < Power(base, |s|)
  {
    if s != [] {
      var t := s[..|s| - 1];
      assert forall i | 0 <= i < |t| :: t[i] == s[i];
      ValueBelowPower(t, base);
      NextDigit(ValueOf(t, base), DigitValue(s[|s| - 1]), Power(base, |t|), base);
    }
  }

  lemma NextDigit(v: nat, d: nat, p: nat, base: nat)
    requires v < p && d < base
    ensures v * base + d < base * p
  {
    assert base * p == base * (p - v - 1) + base * v + base;
    assert base * (p - v - 1) >= 0;
  }

  lemma SmallValue(s: string, base: nat)
    requires base == 16 && |s| <= 8 && UpperHex(s)
    ensures ValueOf(s, base) <= 0xffff_ffff
  {
    ValueBelowPower(s, base);
    PowerOf16(|s|);
  }

  lemma {:induction false} PowerOf16(n: nat)
    requires n <= 8
    ensures Power(16, n) <= 0x1_0000_0000
    decreases 8 - n
  {
    if n == 8 {
      assert Power(16, 2) == 256;
      assert Power(16, 4) == 0x1_0000;
      assert Power(16, 6) == 0x100_0000;
    } else {
      PowerOf16(n + 1);
    }
  }

  /** The number that big-endian bytes make. */
  function BigEndian(bs: seq<octet>): nat {
    if bs == [] then 0 else BigEndian(bs[..|bs| - 1]) * 256 + bs[|bs| - 1]
  }

  lemma {:induction false} ValueOfHexAll(bs: seq<octet>)
    ensures ValueOf(HexAll(bs), 16) == BigEndian(bs)
    decreases |bs|
  {
    hide HexDigit, DigitValue;
    if bs != [] {
      var front, b := bs[..|bs| - 1], bs[|bs| - 1];
      ValueOfHexAll(front);
      assert bs == front + [b];
      HexAllAppend(front, [b]);
      var s, h := HexAll(bs), HexAll(front);
      assert HexAll([b]) == Hex2(b) by {
        assert [b][1..] == [];
      }
      assert s == h + Hex2(b);
      TwoDigits(h, b);
    }
  }

  lemma TwoDigits(h: string, b: octet)
    ensures ValueOf(h + Hex2(b), 16) == ValueOf(h, 16) * 256 + b
  {
    hide HexDigit, DigitValue;
    var s := h + Hex2(b);
    assert s[..|s| - 1] == h + [HexDigit(b / 16)];
    assert s[..|s| - 1][..|s| - 2] == h;
    HexDigitValue(b / 16);
    HexDigitValue(b % 16);
  }

  /** A field printed from up to four bytes is read back as their big-endian number. */
  lemma PrintedField(bs: seq<octet>)
    requires 0 < |bs| <= 4
    ensures HexField(HexAll(bs)) == Some(BigEndian(bs))
  {
    HexAllUpper(bs);
    UpperHexField(HexAll(bs));
    ValueOfHexAll(bs);
  }

  // ----- lines

  function LineLength(text: string, limit: nat): (n: nat)
    ensures n <= |text| && n <= limit
    ensures text != [] && limit > 0 ==> n > 0
    decreases limit
  {
    if text == [] || limit == 0 then 0
    else if text[0] == '\n' then 1
    else 1 + LineLength(text[1..], limit - 1)
  }

  function Chomp(line: string): string {
    if line != [] && line[|line| - 1] == '\n' then line[..|line| - 1] else line
  }

  /** What a loop over fgets(buffer, MAX_LINE_LEN, f) sees, with the newlines taken off:
      a line that does not fit the buffer comes in pieces. */
  function Lines(text: string): seq<string>
    decreases |text|
  {
    if text == [] then []
    else
      var n := LineLength(text, MAX_LINE_LEN - 1);
      [Chomp(text[..n])] + Lines(text[n..])
  }

  lemma {:induction false} LineLengthOf(line: string, rest: string, limit: nat)
    requires '\n' !in line && |line| < limit
    ensures LineLength(line + "\n" + rest, limit) == |line| + 1
    decreases |line|
  {
    var text := line + "\n" + rest;
    if line == [] {
      assert text[0] == '\n';
    } else {
      assert line[0] in line;
      assert text[1..] == line[1..] + "\n" + rest;
      LineLengthOf(line[1..], rest, limit - 1);
    }
  }

  lemma FirstLine(line: string, rest: string)
    requires '\n' !in line && |line| + 1 < MAX_LINE_LEN
    ensures Lines(line + "\n" + rest) == [line] + Lines(rest)
  {
    var text := line + "\n" + rest;
    LineLengthOf(line, rest, MAX_LINE_LEN - 1);
    assert text[..|line| + 1] == line + "\n";
    assert text[|line| + 1..] == rest;
  }

  lemma {:induction false} LineLengthFull(line: string, rest: string, limit: nat)
    requires '\n' !in line && |line| == limit
    ensures LineLength(line + rest, limit) == limit
    decreases limit
  {
    if limit > 0 {
      assert line[0] in line;
      assert (line + rest)[1..] == line[1..] + rest;
      LineLengthFull(line[1..], rest, limit - 1);
    }
  }

  /** A line as long as the buffer leaves its newline for the next fgets. */
  lemma FullLine(line: string, rest: string)
    requires '\n' !in line && |line| == MAX_LINE_LEN - 1
    ensures Lines(line + "\n" + rest) == [line] + ([""] + Lines(rest))
  {
    var text := line + ("\n" + rest);
    assert line + "\n" + rest == text;
    LineLengthFull(line, "\n" + rest, MAX_LINE_LEN - 1);
    assert text[..|line|] == line && text[|line|..] == "\n" + rest;
    FirstLine("", rest);
    assert "" + "\n" + rest == "\n" + rest;
  }

  /** Of a longer line, the first piece fills the buffer. */
  lemma LongLine(line: string, rest: string)
    requires '\n' !in line && |line| >= MAX_LINE_LEN
    ensures var text := line + "\n" + rest; Lines(text) != [] && Lines(text)[0] == line[..MAX_LINE_LEN - 1]
  {
    var n := MAX_LINE_LEN - 1;
    var text := line + "\n" + rest;
    assert text == line[..n] + (line[n..] + "\n" + rest);
    LineLengthFull(line[..n], line[n..] + "\n" + rest, n);
    assert text[..n] == line[..n] && line[..n][n - 1] in line;
  }

  /** A text made of lines. */
  function Joined(lines: seq<string>): string {
    if lines == [] then [] else lines[0] + "\n" + Joined(lines[1..])
  }

  /** Lines that fit the buffer are read back one by one. */
  lemma {:induction false} LinesOfJoined(lines: seq<string>)
    requires forall i | 0 <= i < |lines| :: '\n' !in lines[i] && |lines[i]| + 1 < MAX_LINE_LEN
    ensures Lines(Joined(lines)) == lines
  {
    if lines != [] {
      LinesOfJoined(lines[1..]);
      FirstLine(lines[0], Joined(lines[1..]));
      assert [lines[0]] + lines[1..] == lines;
    }
  }

  lemma {:induction false} JoinedAppend(a: seq<string>, b: seq<string>)
    ensures Joined(a + b) == Joined(a) + Joined(b)
  {
    if a == [] {
      assert a + b == b;
    } else {
      JoinedAppend(a[1..], b);
      assert (a + b)[1..] == a[1..] + b;
    }
  }

  lemma UpperHexHasNoNewline(s: string)
    requires UpperHex(s)
    ensures '\n' !in s
  {
  }

  function Sum(bs: seq<octet>): nat {
    if bs == [] then 0 else Sum(bs[..|bs| - 1]) + bs[|bs| - 1]
  }

  lemma {:induction false} SumAppend(a: seq<octet>, b: seq<octet>)
    ensures Sum(a + b) == Sum(a) + Sum(b)
    decreases |b|
  {
    if b == [] {
      assert a + b == a;
    } else {
      assert (a + b)[..|a + b| - 1] == a + b[..|b| - 1];
      SumAppend(a, b[..|b| - 1]);
    }
  }

  /** Changing one byte changes the sum by less than 256. */
  lemma SumOfUpdate(bs: seq<octet>, k: nat, v: octet)
    requires k < |bs|
    ensures Sum(bs[k := v]) == Sum(bs) - bs[k] + v
  {
    assert bs == bs[..k] + ([bs[k]] + bs[k + 1..]);
    assert bs[k := v] == bs[..k] + ([v] + bs[k + 1..]);
    SumAppend(bs[..k], [bs[k]] + bs[k + 1..]);
    SumAppend(bs[..k], [v] + bs[k + 1..]);
    SumAppend([bs[k]], bs[k + 1..]);
    SumAppend([v], bs[k + 1..]);
    assert Sum([v]) == v && Sum([bs[k]]) == bs[k] by {
      assert [v][..0] == [] && [bs[k]][..0] == [];
    }
  }
}
