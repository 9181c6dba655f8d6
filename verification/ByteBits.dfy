/** A byte as a number and as the weights of its bits. */
module ByteBits {
  import ByteWords
  import Division

  function Num(b: bv8): (x: nat)
    ensures x < 256
  {
    b as nat
  }

  lemma NumOfByte(x: nat)
    requires x < 256
    ensures Num(x as bv8) == x
  {
    ByteWords.ByteRoundTrip(x);
  }

  function One(a: bool): nat {
    if a then 1 else 0
  }

  /** A byte is the sum of the weights of its bits. */
  lemma Weights(b: bv8)
    ensures Num(b) ==
      One(b & 0x01 != 0) + 2 * One(b & 0x02 != 0) + 4 * One(b & 0x04 != 0) + 8 * One(b & 0x08 != 0)
      + 16 * One(b & 0x10 != 0) + 32 * One(b & 0x20 != 0) + 64 * One(b & 0x40 != 0) + 128 * One(b & 0x80 != 0)
  {
  }

  lemma DigitAt(x: nat, p: nat, low: nat, digit: bool, high: nat)
    requires p > 0 && low < p && x == low + p * (One(digit) + 2 * high)
    ensures digit <==> x / p % 2 == 1
  {
    Division.Unique(x, p, One(digit) + 2 * high, low);
  }

  /** Each bit of a byte is a binary digit of the number. */
  lemma DigitsOfByte(b: bv8)
    ensures b & 0x01 != 0 <==> Num(b) % 2 == 1
    ensures b & 0x02 != 0 <==> Num(b) / 2 % 2 == 1
    ensures b & 0x04 != 0 <==> Num(b) / 4 % 2 == 1
    ensures b & 0x08 != 0 <==> Num(b) / 8 % 2 == 1
    ensures b & 0x10 != 0 <==> Num(b) / 16 % 2 == 1
    ensures b & 0x20 != 0 <==> Num(b) / 32 % 2 == 1
    ensures b & 0x40 != 0 <==> Num(b) / 64 % 2 == 1
    ensures b & 0x80 != 0 <==> Num(b) / 128 % 2 == 1
  {
    Weights(b);
    hide Num;
    SumDigits(Num(b), b & 0x01 != 0, b & 0x02 != 0, b & 0x04 != 0, b & 0x08 != 0,
              b & 0x10 != 0, b & 0x20 != 0, b & 0x40 != 0, b & 0x80 != 0);
  }

  lemma SumDigits(x: nat, a: bool, b: bool, c: bool, d: bool, e: bool, f: bool, g: bool, h: bool)
    requires x ==
      One(a) + 2 * One(b) + 4 * One(c) + 8 * One(d) + 16 * One(e) + 32 * One(f) + 64 * One(g) + 128 * One(h)
    ensures (a <==> x % 2 == 1) && (b <==> x / 2 % 2 == 1) && (c <==> x / 4 % 2 == 1) && (d <==> x / 8 % 2 == 1)
    ensures (e <==> x / 16 % 2 == 1) && (f <==> x / 32 % 2 == 1) && (g <==> x / 64 % 2 == 1) && (h <==> x / 128 % 2 == 1)
  {
    LowDigits(x, a, b, c, d, One(e) + 2 * (One(f) + 2 * (One(g) + 2 * One(h))));
    HighDigits(x, One(a) + 2 * (One(b) + 2 * (One(c) + 2 * One(d))), e, f, g, h);
  }

  lemma LowDigits(x: nat, a: bool, b: bool, c: bool, d: bool, high: nat)
    requires x == One(a) + 2 * (One(b) + 2 * (One(c) + 2 * (One(d) + 2 * high)))
    ensures (a <==> x % 2 == 1) && (b <==> x / 2 % 2 == 1) && (c <==> x / 4 % 2 == 1) && (d <==> x / 8 % 2 == 1)
  {
    DigitAt(x, 1, 0, a, One(b) + 2 * (One(c) + 2 * (One(d) + 2 * high)));
    DigitAt(x, 2, One(a), b, One(c) + 2 * (One(d) + 2 * high));
    DigitAt(x, 4, One(a) + 2 * One(b), c, One(d) + 2 * high);
    DigitAt(x, 8, One(a) + 2 * (One(b) + 2 * One(c)), d, high);
  }

  lemma HighDigits(x: nat, low: nat, e: bool, f: bool, g: bool, h: bool)
    requires low < 16 && x == low + 16 * (One(e) + 2 * (One(f) + 2 * (One(g) + 2 * One(h))))
    ensures (e <==> x / 16 % 2 == 1) && (f <==> x / 32 % 2 == 1) && (g <==> x / 64 % 2 == 1) && (h <==> x / 128 % 2 == 1)
  {
    DigitAt(x, 16, low, e, One(f) + 2 * (One(g) + 2 * One(h)));
    DigitAt(x, 32, low + 16 * One(e), f, One(g) + 2 * One(h));
    DigitAt(x, 64, low + 16 * (One(e) + 2 * One(f)), g, One(h));
    DigitAt(x, 128, low + 16 * (One(e) + 2 * (One(f) + 2 * One(g))), h, 0);
  }
}
