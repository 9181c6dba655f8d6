/** Numeric files: itoa_simple, the writer fileio_num and the immediate-mode reader fileio_imm. */
module Numbers {
  import opened Options
  import opened CText
  import Division

  // ----- digits

  function DigitChar(d: nat): char
    requires d < 36
  {
    if d >= 10 then (d - 10 + 'a' as nat) as char else (d + '0' as nat) as char
  }

  /** n in the given base, most significant digit first. */
  function Digits(n: nat, base: nat): (s: string)
    requires 2 <= base <= 36
    ensures s != []
    decreases n
  {
    if n < base then [DigitChar(n)]
    else
      Smaller(n, base);
      Digits(n / base, base) + [DigitChar(n % base)]
  }

  lemma Smaller(n: nat, base: nat)
    requires n >= base >= 2
    ensures 0 < n / base < n
  {
    var q, r := n / base, n % base;
    assert n == base * q + r && r < base;
    Division.PositiveFactor(base, q);
    Doubled(q, base);
  }

  lemma Divided(n: nat, base: nat)
    requires base > 0
    ensures n == (n / base) * base + n % base
  {
  }

  lemma DigitCharValue(d: nat)
    requires d < 36
    ensures DigitValue(DigitChar(d)) == d && !IsSpace(DigitChar(d)) && DigitChar(d) !in "+- ,\n\0"
    ensures DigitChar(d) == '0' <==> d == 0
    ensures '0' <= DigitChar(d) <= '9' || 'a' <= DigitChar(d) <= 'z'
  {
  }

  predicate AllDigits(s: string, base: nat) {
    forall i | 0 <= i < |s| :: DigitValue(s[i]) < base
  }

  /** The digits spell n, without a leading zero unless n is 0. */
  lemma {:induction false} DigitsMean(n: nat, base: nat)
    requires 2 <= base <= 36
    ensures ValueOf(Digits(n, base), base) == n && AllDigits(Digits(n, base), base)
    ensures Digits(n, base)[0] == '0' ==> n == 0 && Digits(n, base) == "0"
    ensures forall c | c in Digits(n, base) :: !IsSpace(c) && c !in "+- ,\n\0" && ('0' <= c <= '9' || 'a' <= c <= 'z')
    decreases n
  {
    hide DigitChar, DigitValue, IsSpace;
    var s := Digits(n, base);
    if n < base {
      DigitCharValue(n);
      assert s[..0] == [];
    } else {
      Smaller(n, base);
      DigitsMean(n / base, base);
      DigitCharValue(n % base);
      assert s[..|s| - 1] == Digits(n / base, base);
      Divided(n, base);
    }
  }

  /** The lower-case digits of a base. */
  predicate LowerDigits(s: string, base: nat) {
    forall c | c in s :: exists d: nat :: d < base <= 36 && c == DigitChar(d)
  }

  /** No other string of lower-case digits without a leading zero has that value. */
  lemma {:induction false} DigitsUnique(s: string, base: nat)
    requires 2 <= base <= 36 && s != [] && LowerDigits(s, base) && (s[0] == '0' ==> |s| == 1)
    ensures s == Digits(ValueOf(s, base), base)
    decreases |s|
  {
    hide DigitChar, DigitValue;
    var t, c := s[..|s| - 1], s[|s| - 1];
    assert c in s;
    var d: nat :| d < base && c == DigitChar(d);
    DigitCharValue(d);
    if t == [] {
      assert s == [c] && ValueOf(s, base) == d;
    } else {
      assert LowerDigits(t, base) by {
        forall x | x in t
          ensures x in s
        {
          var i :| 0 <= i < |t| && t[i] == x;
          assert s[i] == x;
        }
      }
      assert t[0] == s[0];
      DigitsUnique(t, base);
      LeadingDigit(t, base);
      QuotientOf(ValueOf(t, base), d, base);
      assert s == t + [c];
    }
  }

  lemma LeadingDigit(t: string, base: nat)
    requires 2 <= base <= 36 && t != [] && t[0] != '0' && t == Digits(ValueOf(t, base), base)
    ensures ValueOf(t, base) > 0
  {
    DigitCharValue(0);
    assert Digits(0, base) == [DigitChar(0)];
  }

  lemma QuotientOf(v: nat, d: nat, base: nat)
    requires d < base && v > 0
    ensures (v * base + d) / base == v && (v * base + d) % base == d && v * base + d >= base
  {
    Division.Unique(v * base + d, base, v, d);
    Division.ProductAtLeast(base, v);
  }

  /** The divide loop takes the digits from the low end. */
  lemma DigitsStep(n: nat, base: nat)
    requires 2 <= base <= 36
    ensures var q, r := n / base, n % base;
      && (q == 0 ==> Digits(n, base) == [DigitChar(r)])
      && (q != 0 ==> Digits(n, base) == Digits(q, base) + [DigitChar(r)])
      && (q < n || q == 0)
  {
    if n >= base {
      Smaller(n, base);
    } else {
      BelowBase(n, base);
    }
  }

  lemma BelowBase(n: nat, base: nat)
    requires n < base
    ensures n / base == 0 && n % base == n
  {
  }

  /** itoa_simple: the divide loop, the terminator, and the reversal in place. */
  method ItoaSimple(n0: nat, buf: array<char>, base: nat)
    requires 2 <= base <= 36 && |Digits(n0, base)| < buf.Length
    modifies buf
    ensures buf[..|Digits(n0, base)|] == Digits(n0, base)
    ensures buf[|Digits(n0, base)|] == '\0'
    ensures forall i | |Digits(n0, base)| < i < buf.Length :: buf[i] == old(buf[i])
  {
    hide Digits, DigitChar;
    var n: nat, cp, more := n0, 0, true;
    ghost var digits, done := Digits(n0, base), "";
    while more
      invariant 0 <= cp == |done|
      invariant digits == if more then Digits(n, base) + done else done
      invariant forall i | 0 <= i < cp :: buf[i] == done[cp - 1 - i]
      invariant forall i | cp <= i < buf.Length :: buf[i] == old(buf[i])
      decreases more, n
    {
      var quot, rem := n / base, n % base;
      DigitsStep(n, base);
      var c := DigitChar(rem);
      buf[cp] := c;
      done := [c] + done;
      cp := cp + 1;
      n := quot;
      more := quot != 0;
    }
    buf[cp] := '\0';
    ghost var k := cp;
    cp := cp - 1;
    var cp2 := 0;
    while cp > cp2
      invariant 0 <= cp2 && cp2 + cp == k - 1 && -1 <= cp < k
      invariant forall i | 0 <= i < cp2 :: buf[i] == digits[i]
      invariant forall i | cp < i < k :: buf[i] == digits[i]
      invariant forall i | cp2 <= i <= cp :: buf[i] == digits[k - 1 - i]
      invariant buf[k] == '\0' && forall i | k < i < buf.Length :: buf[i] == old(buf[i])
    {
      var c := buf[cp];
      buf[cp] := buf[cp2];
      cp := cp - 1;
      buf[cp2] := c;
      cp2 := cp2 + 1;
    }
  }

  // ----- the writer

  datatype Format = Hex | Dec | Oct | Bin

  function Prefix(f: Format): string {
    match f
    case Hex => "0x"
    case Dec => ""
    case Oct => "0"
    case Bin => "0b"
  }

  function Base(f: Format): (b: nat)
    ensures 2 <= b <= 16
  {
    match f
    case Hex => 16
    case Dec => 10
    case Oct => 8
    case Bin => 2
  }

  /** One byte as fileio_num writes it: octal digits below 8 have no prefix. */
  function Token(b: octet, f: Format): string {
    (if f == Oct && b < 8 then "" else Prefix(f)) + Digits(b, Base(f))
  }

  function TokensOf(bytes: seq<octet>, f: Format): (ts: seq<string>)
    ensures |ts| == |bytes|
  {
    seq(|bytes|, i requires 0 <= i < |bytes| => Token(bytes[i], f))
  }

  function CommaJoined(ts: seq<string>): string {
    if |ts| == 0 then ""
    else if |ts| == 1 then ts[0]
    else ts[0] + "," + CommaJoined(ts[1..])
  }

  lemma {:induction false} DigitsFit(n: nat, base: nat, k: nat)
    requires 2 <= base <= 36 && n < Power(2, k) && k > 0
    ensures |Digits(n, base)| <= k
    decreases k
  {
    if n >= base {
      assert Power(2, 1) == 2;
      HalfFits(n, base, Power(2, k - 1));
      DigitsFit(n / base, base, k - 1);
    }
  }

  lemma HalfFits(n: nat, base: nat, p: nat)
    requires 2 <= base && n < 2 * p
    ensures n / base < p
  {
    Divided(n, base);
    Doubled(n / base, base);
  }

  lemma Doubled(q: nat, base: nat)
    requires 2 <= base
    ensures q * base >= 2 * q
  {
    Division.ProductNonNegative(q, base - 2);
    assert q * base == 2 * q + q * (base - 2);
  }

  lemma ByteDigitsFit(b: octet, base: nat)
    requires 2 <= base <= 36
    ensures |Digits(b, base)| <= 8
  {
    assert Power(2, 4) == 16 && Power(2, 8) == 256;
    DigitsFit(b, base, 8);
  }

  lemma {:induction false} JoinOneMore(ts: seq<string>, t: string)
    ensures CommaJoined(ts + [t]) == if ts == [] then t else CommaJoined(ts) + "," + t
  {
    if |ts| >= 1 {
      assert (ts + [t])[1..] == ts[1..] + [t];
      JoinOneMore(ts[1..], t);
    }
  }

  /** The string that a character array holds. */
  function UpToNul(s: string): string {
    if s == "" || s[0] == '\0' then "" else [s[0]] + UpToNul(s[1..])
  }

  lemma {:induction false} NulEnds(d: string, s: string)
    requires |d| < |s| && s[..|d|] == d && s[|d|] == '\0' && '\0' !in d
    ensures UpToNul(s) == d
    decreases |d|
  {
    if d != "" {
      assert s[0] == d[0] && d[0] in d;
      assert s[1..][..|d| - 1] == d[1..];
      NulEnds(d[1..], s[1..]);
    }
  }

  lemma OneMoreToken(bytes: seq<octet>, b: octet, f: Format)
    ensures TokensOf(bytes + [b], f) == TokensOf(bytes, f) + [Token(b, f)]
  {
    hide Token;
  }

  /** The text of one value through the conversion buffer. */
  lemma BufferHolds(b: octet, base: nat, cbuf: string)
    requires 2 <= base <= 36 && |Digits(b, base)| < |cbuf|
    requires cbuf[..|Digits(b, base)|] == Digits(b, base) && cbuf[|Digits(b, base)|] == '\0'
    ensures UpToNul(cbuf) == Digits(b, base)
  {
    hide Digits, UpToNul;
    DigitsMean(b, base);
    NulEnds(Digits(b, base), cbuf);
  }

  /** fileio_num writing size bytes of buf; text is what it prints. */
  method FileioNum(buf: array<octet>, size: nat, f: Format) returns (text: string)
    requires size <= buf.Length
    ensures text == CommaJoined(TokensOf(buf[..size], f)) + "\n"
  {
    hide CommaJoined, TokensOf, Digits, UpToNul;
    var base, prefix := Base(f), Prefix(f);
    var cbuf := new char[20];
    text := "";
    var i := 0;
    NoValues(f);
    assert buf[..0] == [];
    while i < size
      invariant 0 <= i <= size
      invariant text == CommaJoined(TokensOf(buf[..i], f))
    {
      var num := buf[i];
      JoinOneMore(TokensOf(buf[..i], f), Token(num, f));
      OneMoreToken(buf[..i], num, f);
      assert buf[..i + 1] == buf[..i] + [num];
      if i > 0 {
        text := text + ",";
      }
      if prefix != "" && !(base == 8 && num < 8) {
        text := text + prefix;
      }
      ByteDigitsFit(num, base);
      ItoaSimple(num, cbuf, base);
      BufferHolds(num, base, cbuf[..]);
      text := text + UpToNul(cbuf[..]);
      i := i + 1;
    }
    text := text + "\n";
  }

  lemma NoValues(f: Format)
    ensures TokensOf([], f) == [] && CommaJoined([]) == ""
  {
  }

  // ----- the reader

  /** strtok over " ,". */
  predicate IsDelimiter(c: char) {
    c == ' ' || c == ','
  }

  function SkipDelimiters(s: string): (n: nat)
    ensures n <= |s|
    ensures n < |s| ==> !IsDelimiter(s[n])
  {
    if s != "" && IsDelimiter(s[0]) then 1 + SkipDelimiters(s[1..]) else 0
  }

  function TokenLength(s: string): (n: nat)
    ensures n <= |s|
    ensures s != "" && !IsDelimiter(s[0]) ==> n > 0
  {
    if s == "" || IsDelimiter(s[0]) then 0 else 1 + TokenLength(s[1..])
  }

  function Tokens(s: string): seq<string>
    decreases |s|, 1
  {
    TokensFrom(s[SkipDelimiters(s)..])
  }

  /** The tokens of a string that starts with one. */
  function TokensFrom(t: string): seq<string>
    requires t == "" || !IsDelimiter(t[0])
    decreases |t|, 0
  {
    if t == "" then [] else [t[..TokenLength(t)]] + Tokens(t[TokenLength(t)..])
  }

  /** One value: "0b" and base 2, or what strtoul takes in base 0; the byte is the low part. */
  function ParseToken(p: string): Option<octet> {
    var bin := |p| >= 2 && p[..2] == "0b";
    var t := if bin then p[2..] else p;
    var r := Strtoul(t, if bin then 2 else 0);
    if r.used != |t| then None else Some(r.value % 256)
  }

  /** The bytes stored, and whether all tokens looked at were numbers. */
  datatype Parsed = Parsed(bytes: seq<octet>, ok: bool)

  function Parse(tokens: seq<string>, room: nat): (p: Parsed)
    ensures |p.bytes| <= room
    decreases room
  {
    if tokens == [] || room == 0 then Parsed([], true)
    else
      match ParseToken(tokens[0])
      case None => Parsed([], false)
      case Some(b) =>
        var p := Parse(tokens[1..], room - 1);
        Parsed([b] + p.bytes, p.ok)
  }

  lemma TokensAt(text: string, start: nat, i: nat, next: nat)
    requires start <= i <= next <= |text|
    requires i == start + SkipDelimiters(text[start..]) && next == i + TokenLength(text[i..])
    ensures i == |text| ==> Tokens(text[start..]) == []
    ensures i < |text| ==> i < next && Tokens(text[start..]) == [text[i..next]] + Tokens(text[next..])
  {
    hide SkipDelimiters, TokenLength;
    assert text[start..][i - start..] == text[i..];
    assert text[i..][..next - i] == text[i..next] && text[i..][next - i..] == text[next..];
  }

  lemma DelimiterStep(text: string, i: nat)
    requires i <= |text|
    ensures i < |text| && IsDelimiter(text[i]) ==> SkipDelimiters(text[i..]) == 1 + SkipDelimiters(text[i + 1..])
    ensures i < |text| && !IsDelimiter(text[i]) ==> TokenLength(text[i..]) == 1 + TokenLength(text[i + 1..])
    ensures i == |text| || !IsDelimiter(text[i]) ==> SkipDelimiters(text[i..]) == 0
    ensures i == |text| || IsDelimiter(text[i]) ==> TokenLength(text[i..]) == 0
  {
    if i < |text| {
      assert text[i..][1..] == text[i + 1..];
    }
  }

  method Strtok(text: string, start: nat) returns (found: bool, p: string, next: nat)
    requires start <= |text|
    ensures start <= next <= |text|
    ensures found ==> next > start && Tokens(text[start..]) == [p] + Tokens(text[next..])
    ensures !found ==> Tokens(text[start..]) == []
  {
    hide Tokens, SkipDelimiters, TokenLength;
    var i := start;
    while i < |text| && IsDelimiter(text[i])
      invariant start <= i <= |text|
      invariant SkipDelimiters(text[start..]) == i - start + SkipDelimiters(text[i..])
    {
      DelimiterStep(text, i);
      i := i + 1;
    }
    DelimiterStep(text, i);
    next := i;
    while next < |text| && !IsDelimiter(text[next])
      invariant i <= next <= |text|
      invariant TokenLength(text[i..]) == next - i + TokenLength(text[next..])
    {
      DelimiterStep(text, next);
      next := next + 1;
    }
    DelimiterStep(text, next);
    TokensAt(text, start, i, next);
    found, p := i < |text|, text[i..next];
  }

  /** The memory after bytes were stored at its start. */
  ghost predicate Stored(buf: seq<octet>, tags: seq<bool>, buf0: seq<octet>, tags0: seq<bool>, bytes: seq<octet>) {
    && |bytes| <= |buf0| == |tags0|
    && buf == bytes + buf0[|bytes|..]
    && tags == seq(|bytes|, _ => true) + tags0[|bytes|..]
  }

  function Prepend(front: seq<octet>, p: Parsed): Parsed {
    Parsed(front + p.bytes, p.ok)
  }

  /** fileio_imm reading. */
  method FileioImm(text: string, buf: array<octet>, tags: array<bool>, size: nat) returns (rc: int)
    requires size <= buf.Length == tags.Length
    modifies buf, tags
    ensures var p := Parse(Tokens(text), size);
      rc == (if p.ok then |p.bytes| else -1) && Stored(buf[..], tags[..], old(buf[..]), old(tags[..]), p.bytes)
  {
    hide Tokens, ParseToken, Parse, Stored, Prepend;
    rc := 0;
    var loc := 0;
    ghost var buf0, tags0, done: seq<octet> := buf[..], tags[..], [];
    ghost var all := Parse(Tokens(text), size);
    assert text[0..] == text;
    var found, p, next := Strtok(text, 0);
    ghost var rest := Tokens(text);
    PrependNothing(all);
    NothingStored(buf0, tags0);
    while found && loc < size
      invariant 0 <= loc <= size && rc == loc == |done| && next <= |text|
      invariant rest == if found then [p] + Tokens(text[next..]) else []
      invariant all == Prepend(done, Parse(rest, size - loc))
      invariant Stored(buf[..], tags[..], buf0, tags0, done)
      decreases size - loc
    {
      ParseNext(p, Tokens(text[next..]), size - loc);
      var b := ParseToken(p);
      if b.None? {
        PrependDone(done, false);
        return -1;
      }
      PrependOne(done, b.value, Parse(Tokens(text[next..]), size - loc - 1));
      OneStored(buf[..], tags[..], buf0, tags0, done, b.value);
      rest, done := Tokens(text[next..]), done + [b.value];
      ghost var was, wasTags := buf[..], tags[..];
      buf[loc] := b.value;
      tags[loc] := true;
      assert buf[..] == was[loc := b.value] && tags[..] == wasTags[loc := true];
      loc := loc + 1;
      found, p, next := Strtok(text, next);
      rc := loc;
    }
    ParseDone(rest, size - loc);
    PrependDone(done, true);
  }

  lemma NothingStored(buf0: seq<octet>, tags0: seq<bool>)
    requires |buf0| == |tags0|
    ensures Stored(buf0, tags0, buf0, tags0, [])
  {
  }

  lemma OneStored(buf: seq<octet>, tags: seq<bool>, buf0: seq<octet>, tags0: seq<bool>, bytes: seq<octet>, b: octet)
    requires Stored(buf, tags, buf0, tags0, bytes) && |bytes| < |buf0|
    ensures |buf| == |tags| == |buf0| && Stored(buf[|bytes| := b], tags[|bytes| := true], buf0, tags0, bytes + [b])
  {
  }

  lemma ParseNext(p: string, rest: seq<string>, room: nat)
    requires room > 0
    ensures ParseToken(p).None? ==> Parse([p] + rest, room) == Parsed([], false)
    ensures ParseToken(p).Some? ==>
      var q := Parse(rest, room - 1); Parse([p] + rest, room) == Parsed([ParseToken(p).value] + q.bytes, q.ok)
  {
    hide ParseToken;
  }

  lemma ParseDone(rest: seq<string>, room: nat)
    requires rest == [] || room == 0
    ensures Parse(rest, room) == Parsed([], true)
  {
  }

  lemma PrependDone(front: seq<octet>, ok: bool)
    ensures Prepend(front, Parsed([], ok)) == Parsed(front, ok)
  {
    assert front + [] == front;
  }

  lemma PrependNothing(p: Parsed)
    ensures Prepend([], p) == p
  {
    assert [] + p.bytes == p.bytes;
  }

  lemma PrependOne(front: seq<octet>, b: octet, p: Parsed)
    ensures Prepend(front + [b], p) == Prepend(front, Parsed([b] + p.bytes, p.ok))
  {
    assert front + [b] + p.bytes == front + ([b] + p.bytes);
  }

  // ----- the round trip

  predicate GoodToken(t: string) {
    t != "" && forall c | c in t :: !IsDelimiter(c)
  }

  lemma {:induction false} TokenAhead(t: string, rest: string)
    requires forall c | c in t :: !IsDelimiter(c)
    requires rest == "" || IsDelimiter(rest[0])
    ensures TokenLength(t + rest) == |t|
    decreases |t|
  {
    if t == "" {
      assert t + rest == rest;
    } else {
      assert t[0] in t;
      assert (t + rest)[1..] == t[1..] + rest;
      TokenAhead(t[1..], rest);
    }
  }

  lemma OneToken(t: string, rest: string)
    requires GoodToken(t)
    ensures Tokens(t) == [t]
    ensures Tokens(t + "," + rest) == [t] + Tokens(rest)
  {
    hide Tokens;
    assert t[0] in t;
    TokenAhead(t, "");
    NoTokens();
    assert t + "" == t && t[0..] == t && t[..|t|] == t && t[|t|..] == "";
    TokensAt(t, 0, 0, |t|);
    var s := t + ("," + rest);
    assert t + "," + rest == s;
    TokenAhead(t, "," + rest);
    assert s[0..] == s && s[0..|t|] == t && s[|t|..] == "," + rest;
    TokensAt(s, 0, 0, |t|);
    LeadingComma(rest);
  }

  lemma LeadingComma(rest: string)
    ensures Tokens("," + rest) == Tokens(rest)
  {
    hide TokensFrom;
    var s, k := "," + rest, SkipDelimiters(rest);
    assert s[1..] == rest;
    assert SkipDelimiters(s) == 1 + k;
    assert s[1 + k..] == rest[k..];
  }

  lemma {:induction false} TokensOfJoined(ts: seq<string>)
    requires forall i | 0 <= i < |ts| :: GoodToken(ts[i])
    ensures Tokens(CommaJoined(ts)) == ts
  {
    hide Tokens, GoodToken;
    if ts == [] {
      NoTokens();
    } else {
      OneToken(ts[0], CommaJoined(ts[1..]));
      TokensOfJoined(ts[1..]);
    }
  }

  lemma NoTokens()
    ensures Tokens("") == []
  {
  }

  lemma {:induction false} DigitsCounted(s: string, base: nat)
    requires AllDigits(s, base)
    ensures DigitCount(s, base) == |s|
  {
    if s != "" {
      DigitsCounted(s[1..], base);
    }
  }

  lemma {:induction false} LeadingZero(s: string, base: nat)
    ensures ValueOf("0" + s, base) == ValueOf(s, base)
    decreases |s|
  {
    var z := "0" + s;
    if s == "" {
      assert z[..0] == "" && ValueOf(z[..0], base) == 0;
    } else {
      assert z[..|z| - 1] == "0" + s[..|s| - 1];
      LeadingZero(s[..|s| - 1], base);
    }
  }

  /** strtoul takes a whole string of digits of the base it chooses. */
  lemma WholeNumber(s: string, base: nat, chosen: nat, prefix: nat)
    requires base == 0 || base == 2
    requires prefix < |s| && AllDigits(s[prefix..], chosen) && ValueOf(s[prefix..], chosen) <= ULONG_MAX
    requires !IsSpace(s[0]) && s[0] != '+' && s[0] != '-'
    requires prefix == (if base == 0 && HasHexPrefix(s) then 2 else 0)
    requires chosen == if prefix == 2 then 16 else if base == 0 then (if s[0] == '0' then 8 else 10) else base
    ensures Strtoul(s, base) == Number(ValueOf(s[prefix..], chosen), |s|)
  {
    hide ValueOf, DigitCount, HasHexPrefix, AllDigits;
    assert SkipSpace(s) == 0;
    assert s[0..] == s;
    var t := s[prefix..];
    DigitsCounted(t, chosen);
    assert t[..|t|] == t;
  }

  /** What ParseToken does with a token of plain digits. */
  lemma PlainParsed(t: string, chosen: nat, b: octet)
    requires t != "" && AllDigits(t, chosen) && ValueOf(t, chosen) == b && chosen == (if t[0] == '0' then 8 else 10)
    requires AllDigits(t, 10) && !IsSpace(t[0])
    ensures ParseToken(t) == Some(b)
  {
    hide ValueOf, Strtoul, AllDigits, IsSpace, HasHexPrefix;
    NoPrefix(t, 10);
    NoSign(t);
    assert t[0..] == t;
    WholeNumber(t, 0, chosen, 0);
  }

  lemma NoSign(t: string)
    requires t != "" && AllDigits(t, 10)
    ensures t[0] != '+' && t[0] != '-'
  {
  }

  lemma HexParsed(b: octet)
    ensures ParseToken(Token(b, Hex)) == Some(b)
  {
    hide Digits, ValueOf, Strtoul, AllDigits, IsSpace;
    var d := Digits(b, 16);
    DigitsMean(b, 16);
    var t := "0x" + d;
    assert t[2..] == d;
    FirstDigit(d, 16);
    ZeroAhead("");
    WholeNumber(t, 0, 16, 2);
  }

  lemma BinParsed(b: octet)
    ensures ParseToken(Token(b, Bin)) == Some(b)
  {
    hide Digits, ValueOf, Strtoul, AllDigits, IsSpace, HasHexPrefix;
    var d := Digits(b, 2);
    DigitsMean(b, 2);
    var t := "0b" + d;
    assert t[2..] == d && d[0..] == d && t[..2] == "0b";
    assert d[0] in d;
    WholeNumber(d, 2, 2, 0);
  }

  lemma DecParsed(b: octet)
    ensures ParseToken(Token(b, Dec)) == Some(b)
  {
    hide Digits, ValueOf, ParseToken, AllDigits, IsSpace;
    var d := Digits(b, 10);
    DigitsMean(b, 10);
    assert d[0] in d && Token(b, Dec) == d;
    ZeroInOctal(d, b, 10);
    PlainParsed(d, if d[0] == '0' then 8 else 10, b);
  }

  lemma OctParsed(b: octet)
    ensures ParseToken(Token(b, Oct)) == Some(b)
  {
    hide Digits, ValueOf, ParseToken, AllDigits, IsSpace;
    var d := Digits(b, 8);
    DigitsMean(b, 8);
    assert d[0] in d;
    if b < 8 {
      assert Token(b, Oct) == d;
      ZeroInOctal(d, b, 8);
      SmallOctal(b);
      PlainParsed(d, if d[0] == '0' then 8 else 10, b);
    } else {
      var t := "0" + d;
      LeadingZero(d, 8);
      ZeroAhead(d);
      OctalInDecimal(t);
      PlainParsed(t, 8, b);
    }
  }

  lemma OctalInDecimal(t: string)
    requires AllDigits(t, 8)
    ensures AllDigits(t, 10)
  {
  }

  lemma TokenParsed(b: octet, f: Format)
    ensures ParseToken(Token(b, f)) == Some(b)
  {
    hide ParseToken, Token;
    HexParsed(b);
    BinParsed(b);
    DecParsed(b);
    OctParsed(b);
  }

  lemma FirstDigit(d: string, base: nat)
    requires d != "" && AllDigits(d, base)
    ensures DigitValue(d[0]) < base
  {
  }

  lemma ZeroAhead(d: string)
    requires AllDigits(d, 8)
    ensures AllDigits("0" + d, 8) && !IsSpace('0')
  {
  }

  /** Digits up to base 10 are no prefix. */
  lemma NoPrefix(d: string, base: nat)
    requires d != "" && AllDigits(d, base) && base <= 10
    ensures !HasHexPrefix(d) && !(|d| >= 2 && d[..2] == "0b")
  {
    if |d| >= 2 {
      assert d[1] != 'b' && d[1] != 'x' && d[1] != 'X';
    }
  }

  /** A number that starts with 0 is 0, in every base. */
  lemma ZeroInOctal(d: string, b: nat, base: nat)
    requires d != "" && AllDigits(d, base) && (d[0] == '0' ==> b == 0 && d == "0") && ValueOf(d, base) == b
    ensures d[0] == '0' ==> AllDigits(d, 8) && ValueOf(d, 8) == b
  {
    if d[0] == '0' {
      assert d[..0] == "";
    }
  }

  /** An octal number of one digit reads the same in decimal. */
  lemma SmallOctal(b: nat)
    requires b < 8
    ensures AllDigits(Digits(b, 8), 10) && ValueOf(Digits(b, 8), 10) == b
  {
    DigitCharValue(b);
    assert Digits(b, 8)[..0] == "";
  }

  lemma {:induction false} TokensParsed(bytes: seq<octet>, f: Format, room: nat)
    requires |bytes| <= room
    ensures Parse(TokensOf(bytes, f), room) == Parsed(bytes, true)
  {
    hide ParseToken, Token;
    if bytes != [] {
      TokenParsed(bytes[0], f);
      assert TokensOf(bytes, f)[1..] == TokensOf(bytes[1..], f);
      TokensParsed(bytes[1..], f, room - 1);
    }
  }

  lemma TokenIsGood(b: octet, f: Format)
    ensures GoodToken(Token(b, f))
  {
    DigitsMean(b, Base(f));
  }

  /** Parsing the line that fileio_num wrote, without its newline, gives back the bytes. */
  lemma NumbersRoundTrip(bytes: seq<octet>, f: Format, room: nat)
    requires |bytes| <= room
    ensures Parse(Tokens(CommaJoined(TokensOf(bytes, f))), room) == Parsed(bytes, true)
  {
    hide Tokens, CommaJoined, Token, GoodToken;
    forall i | 0 <= i < |bytes|
      ensures GoodToken(TokensOf(bytes, f)[i])
    {
      TokenIsGood(bytes[i], f);
    }
    TokensOfJoined(TokensOf(bytes, f));
    TokensParsed(bytes, f, room);
  }

  // ----- which tokens are numbers

  lemma {:induction false} AllCounted(s: string, base: nat)
    ensures DigitCount(s, base) == |s| <==> AllDigits(s, base)
    decreases |s|
  {
    hide DigitValue;
    if s != [] {
      AllCounted(s[1..], base);
      assert forall i | 0 < i < |s| :: s[i] == s[1..][i - 1];
    }
  }

  /** The text starts with a sign or with white space, which strtoul takes. */
  predicate SignFirst(s: string) {
    s != "" && (IsSpace(s[0]) || s[0] == '+' || s[0] == '-')
  }

  lemma AllUsed(t: string, base: nat)
    requires t != "" && !SignFirst(t) && (base == 0 || base == 2)
    ensures Strtoul(t, base).used == |t| <==>
      if base == 2 then AllDigits(t, 2)
      else if HasHexPrefix(t) then AllDigits(t[2..], 16)
      else if t[0] == '0' then AllDigits(t, 8)
      else AllDigits(t, 10)
  {
    hide DigitValue, DigitCount, ValueOf, AllDigits;
    assert t[0..] == t;
    var k := if base == 0 && HasHexPrefix(t) then 2 else 0;
    var b := if k == 2 then 16 else if base == 2 then 2 else if t[0] == '0' then 8 else 10;
    AllCounted(t[k..], b);
  }

  /** A token without a sign is a number exactly if every character is a digit: a binary one behind 0b, a
      hexadecimal one behind 0x, an octal one after a 0, and else a decimal one. */
  lemma TokenIsNumber(p: string)
    requires p != "" && !SignFirst(p) && (|p| >= 2 && p[..2] == "0b" ==> !SignFirst(p[2..]))
    ensures ParseToken(p).Some? <==>
      if |p| >= 2 && p[..2] == "0b" then AllDigits(p[2..], 2)
      else if |p| >= 3 && (p[..2] == "0x" || p[..2] == "0X") then AllDigits(p[2..], 16)
      else if p[0] == '0' then AllDigits(p, 8)
      else AllDigits(p, 10)
  {
    hide DigitValue, DigitCount, Strtoul;
    if |p| >= 2 && p[..2] == "0b" {
      if p[2..] == "" {
        NothingUsed();
      } else {
        AllUsed(p[2..], 2);
      }
    } else {
      AllUsed(p, 0);
      if |p| >= 2 {
        PrefixCharacters(p);
      }
    }
  }

  lemma NothingUsed()
    ensures Strtoul("", 2).used == 0
  {
  }

  lemma PrefixCharacters(p: string)
    requires |p| >= 2
    ensures p[..2] == "0x" || p[..2] == "0X" <==> p[0] == '0' && (p[1] == 'x' || p[1] == 'X')
    ensures DigitValue('x') == 33 && DigitValue('X') == 33
  {
  }

  /** A prefix without digits passes for 0. */
  lemma BarePrefixIsZero()
    ensures ParseToken("0b") == Some(0)
  {
    assert "0b"[2..] == "";
  }

  // ----- the shape of the line printed

  lemma TokenIsPlain(b: octet, f: Format)
    ensures ',' !in Token(b, f) && ' ' !in Token(b, f) && '\n' !in Token(b, f)
  {
    hide Digits;
    DigitsMean(b, Base(f));
  }

  /** Values are separated by one comma each, and there are no blanks. */
  lemma {:induction false} OneCommaBetween(bytes: seq<octet>, f: Format)
    ensures var text := CommaJoined(TokensOf(bytes, f));
      ' ' !in text && '\n' !in text && multiset(text)[','] == if bytes == [] then 0 else |bytes| - 1
    decreases |bytes|
  {
    hide Token;
    var ts := TokensOf(bytes, f);
    if bytes != [] {
      TokenIsPlain(bytes[0], f);
      assert ts[1..] == TokensOf(bytes[1..], f);
      OneCommaBetween(bytes[1..], f);
      assert CommaJoined(ts) == if |ts| == 1 then ts[0] else ts[0] + "," + CommaJoined(ts[1..]);
    }
  }
}
