/** Bitwise AND of unsigned numbers, and masks for power-of-two page sizes. */
module BitMask {
  import Division

  function BitAnd(a: nat, b: nat): nat
    decreases a
  {
    if a == 0 then 0 else 2 * BitAnd(a / 2, b / 2) + (if a % 2 == 1 && b % 2 == 1 then 1 else 0)
  }

  function Pow2(k: nat): (p: nat)
    ensures p > 0
  {
    if k == 0 then 1 else 2 * Pow2(k - 1)
  }

  lemma {:induction false} AndAtMost(a: nat, b: nat)
    ensures BitAnd(a, b) <= a
    decreases a
  {
    if a > 0 {
      AndAtMost(a / 2, b / 2);
    }
  }

  /** Clearing bits twice with one mask is clearing them once. */
  lemma {:induction false} AndTwice(a: nat, b: nat)
    ensures BitAnd(BitAnd(a, b), b) == BitAnd(a, b)
    decreases a
  {
    if a > 0 {
      AndTwice(a / 2, b / 2);
      var low := if a % 2 == 1 && b % 2 == 1 then 1 else 0;
      var c := BitAnd(a, b);
      assert c == 2 * BitAnd(a / 2, b / 2) + low;
      assert c / 2 == BitAnd(a / 2, b / 2) && c % 2 == low;
      if c == 0 {
        assert BitAnd(c, b) == 0;
      }
    }
  }

  lemma {:induction false} HalfOfMask(w: nat)
    requires w > 0
    ensures (Pow2(w) - 1) / 2 == Pow2(w - 1) - 1 && (Pow2(w) - 1) % 2 == 1
  {
  }

  /** A mask of low ones keeps the remainder. */
  lemma {:induction false} AndLow(a: nat, k: nat)
    ensures BitAnd(a, Pow2(k) - 1) == a % Pow2(k)
    decreases a
  {
    hide BitAnd;
    if k == 0 {
      AndZero(a);
    } else if a > 0 {
      HalfOfMask(k);
      AndLow(a / 2, k - 1);
      HalfRemainder(a, Pow2(k - 1));
      AndStep(a, Pow2(k) - 1);
    } else {
      AndNothing(Pow2(k) - 1);
      Division.Unique(0, Pow2(k), 0, 0);
    }
  }

  lemma AndNothing(b: nat)
    ensures BitAnd(0, b) == 0
  {
  }

  lemma AndStep(a: nat, b: nat)
    ensures BitAnd(a, b) == 2 * BitAnd(a / 2, b / 2) + (if a % 2 == 1 && b % 2 == 1 then 1 else 0)
  {
  }

  lemma {:induction false} AndZero(a: nat)
    ensures BitAnd(a, 0) == 0
    decreases a
  {
    if a > 0 {
      AndZero(a / 2);
    }
  }

  lemma HalfRemainder(a: nat, p: nat)
    requires p > 0
    ensures a % (2 * p) == 2 * ((a / 2) % p) + a % 2
  {
    var q, r := (a / 2) / p, (a / 2) % p;
    Divided(a / 2, p);
    assert a == 2 * (p * q + r) + a % 2;
    assert 2 * (p * q) == (2 * p) * q;
    Division.Unique(a, 2 * p, q, 2 * r + a % 2);
  }

  lemma Divided(n: nat, p: nat)
    requires p > 0
    ensures n == p * (n / p) + n % p && n % p < p
  {
  }

  /** The complement of the low mask, in w bits, takes the remainder away. */
  lemma {:induction false} AndHigh(a: nat, k: nat, w: nat)
    requires k <= w && a < Pow2(w)
    ensures Pow2(w) >= Pow2(k) && BitAnd(a, Pow2(w) - Pow2(k)) == a - a % Pow2(k)
    decreases w
  {
    if w == 0 {
      assert a == 0;
    } else {
      if k == 0 {
        HalfOfMask(w);
        AndHigh(a / 2, 0, w - 1);
      } else {
        AndHigh(a / 2, k - 1, w - 1);
        assert (Pow2(w) - Pow2(k)) / 2 == Pow2(w - 1) - Pow2(k - 1);
        HalfRemainder(a, Pow2(k - 1));
      }
    }
  }

  /** Digit n of a number is digit n - 1 of its half. */
  lemma HalfDigit(x: nat, n: nat)
    requires n > 0
    ensures x / Pow2(n) == x / 2 / Pow2(n - 1)
  {
    var p, h := Pow2(n - 1), x / 2;
    Divided(h, p);
    assert x == 2 * p * (h / p) + (2 * (h % p) + x % 2) by {
      assert 2 * p * (h / p) == 2 * (p * (h / p));
    }
    Division.Unique(x, 2 * p, h / p, 2 * (h % p) + x % 2);
  }

  /** A number below a power of two is determined by its digits. */
  lemma {:induction false} DigitsDetermine(x: nat, y: nat, k: nat)
    requires x < Pow2(k) && y < Pow2(k)
    requires forall n: nat | n < k :: x / Pow2(n) % 2 == y / Pow2(n) % 2
    ensures x == y
    decreases k
  {
    if k > 0 {
      assert x / Pow2(0) % 2 == y / Pow2(0) % 2;
      forall n: nat | n < k - 1
        ensures x / 2 / Pow2(n) % 2 == y / 2 / Pow2(n) % 2
      {
        HalfDigit(x, n + 1);
        HalfDigit(y, n + 1);
        assert x / Pow2(n + 1) % 2 == y / Pow2(n + 1) % 2;
      }
      DigitsDetermine(x / 2, y / 2, k - 1);
    }
  }

  /** The digits of two numbers written side by side. */
  lemma {:induction false} DigitOfJoined(high: nat, low: nat, m: nat, n: nat)
    requires low < Pow2(m)
    ensures (high * Pow2(m) + low) / Pow2(n) % 2 == if n < m then low / Pow2(n) % 2 else high / Pow2(n - m) % 2
    decreases n
  {
    var p := Pow2(m);
    if m == 0 {
      assert high * p + low == high;
    } else {
      var h := Pow2(m - 1);
      assert high * p == 2 * (high * h);
      var x := high * p + low;
      assert x / 2 == high * h + low / 2 && x % 2 == low % 2;
      if n > 0 {
        HalfDigit(x, n);
        HalfDigit(low, n);
        DigitOfJoined(high, low / 2, m - 1, n - 1);
      }
    }
  }

  /** Digits above the number are 0. */
  lemma {:induction false} NoHighDigits(x: nat, n: nat)
    requires x < Pow2(n)
    ensures x / Pow2(n) % 2 == 0
  {
    Division.Unique(x, Pow2(n), 0, x);
  }

  /** A multiple of a power of two has no digits below it. */
  lemma {:induction false} NoLowDigits(x: nat, k: nat, n: nat)
    requires n < k && x % Pow2(k) == 0
    ensures x / Pow2(n) % 2 == 0
    decreases n
  {
    HalfRemainder(x, Pow2(k - 1));
    if n > 0 {
      HalfDigit(x, n);
      NoLowDigits(x / 2, k - 1, n - 1);
    }
  }

  lemma {:induction false} Pow2Grows(m: nat, n: nat)
    requires m <= n
    ensures Pow2(m) <= Pow2(n)
    decreases n
  {
    if m < n {
      Pow2Grows(m, n - 1);
    }
  }

  lemma OctetPowers()
    ensures Pow2(0) == 1 && Pow2(1) == 2 && Pow2(2) == 4 && Pow2(3) == 8
    ensures Pow2(4) == 16 && Pow2(5) == 32 && Pow2(6) == 64 && Pow2(7) == 128 && Pow2(8) == 256
  {
    assert Pow2(2) == 4;
    assert Pow2(4) == 16;
    assert Pow2(6) == 64;
  }

  /** The top digit of a remainder. */
  lemma {:induction false} TopDigit(x: nat, k: nat)
    requires k > 0
    ensures x % Pow2(k) == x % Pow2(k - 1) + (if x / Pow2(k - 1) % 2 == 1 then Pow2(k - 1) else 0)
  {
    var p := Pow2(k - 1);
    SplitRemainder(x, p, x / p / 2, x / p % 2);
  }

  lemma SplitRemainder(x: nat, p: nat, h: nat, digit: nat)
    requires p > 0 && digit < 2 && x / p == 2 * h + digit
    ensures x % (2 * p) == x % p + if digit == 1 then p else 0
  {
    Divided(x, p);
    var r := x % p + if digit == 1 then p else 0;
    assert x == (2 * p) * h + r by {
      Regroup(p, h, digit);
    }
    Division.Unique(x, 2 * p, h, r);
  }

  lemma Regroup(p: nat, h: nat, digit: nat)
    requires digit < 2
    ensures p * (2 * h + digit) == (2 * p) * h + if digit == 1 then p else 0
  {
    assert p * (2 * h) == (2 * p) * h;
    if digit == 1 {
      assert p * (2 * h + 1) == p * (2 * h) + p;
    }
  }

  lemma DigitOfOctets(high: nat, low: nat, n: nat)
    requires low < 256
    ensures (high * 256 + low) / Pow2(n) % 2 == if n < 8 then low / Pow2(n) % 2 else high / Pow2(n - 8) % 2
  {
    OctetPowers();
    DigitOfJoined(high, low, 8, n);
  }

  /** The digits of four octets read as one number. */
  lemma DigitOfFour(n0: nat, n1: nat, n2: nat, n3: nat, n: nat)
    requires n0 < 256 && n1 < 256 && n2 < 256 && n3 < 256 && n < 32
    ensures (((n0 * 256 + n1) * 256 + n2) * 256 + n3) / Pow2(n) % 2 ==
      (if n < 8 then n3 else if n < 16 then n2 else if n < 24 then n1 else n0) / Pow2(n % 8) % 2
  {
    hide Pow2;
    var a := n0 * 256 + n1;
    var b := a * 256 + n2;
    DigitOfOctets(b, n3, n);
    if n < 8 {
      assert n % 8 == n;
    } else if n < 16 {
      DigitOfOctets(a, n2, n - 8);
      assert n % 8 == n - 8;
    } else if n < 24 {
      DigitOfOctets(a, n2, n - 8);
      DigitOfOctets(n0, n1, n - 16);
      assert n % 8 == n - 16;
    } else {
      DigitOfOctets(a, n2, n - 8);
      DigitOfOctets(n0, n1, n - 16);
      assert n % 8 == n - 24;
    }
  }
}
