/** The bit-serial CRC of one register, shift by shift: what the table of crc16.c has to match. */
module CrcShift {

  function Xor(a: bv16, b: bv16): bv16 {
    a ^ b
  }

  function Half(a: bv16): bv16 {
    a >> 1
  }

  predicate Odd(a: bv16) {
    a & 1 != 0
  }

  /** One shift with the reflected polynomial. */
  function ShiftOne(crc: bv16): bv16 {
    if Odd(crc) then Xor(Half(crc), 0x8408) else Half(crc)
  }

  /** Eight shifts, that is one byte. */
  function ShiftEight(crc: bv16): bv16 {
    ShiftOne(ShiftOne(ShiftOne(ShiftOne(ShiftOne(ShiftOne(ShiftOne(ShiftOne(crc))))))))
  }

  lemma XorHalf(a: bv16, b: bv16)
    ensures Half(Xor(a, b)) == Xor(Half(a), Half(b))
    ensures !Odd(a) ==> Odd(Xor(a, b)) == Odd(b)
  {
  }

  lemma XorAssoc(a: bv16, b: bv16, c: bv16)
    ensures Xor(Xor(a, b), c) == Xor(a, Xor(b, c))
  {
  }

  /** An even part of the register only moves down in a shift. */
  lemma OneShift(h: bv16, z: bv16)
    requires !Odd(h)
    ensures ShiftOne(Xor(h, z)) == Xor(Half(h), ShiftOne(z))
  {
    hide Xor, Half, Odd;
    XorHalf(h, z);
    XorAssoc(Half(h), Half(z), 0x8408);
  }

  predicate LowZero(h: bv16) {
    h & 0xff == 0
  }

  function HighByte(x: bv16): bv16 {
    x & 0xff00
  }

  function LowByte(x: bv16): bv16 {
    x & 0xff
  }

  function Top(x: bv16): bv16 {
    x >> 8
  }

  lemma Halves(h: bv16)
    requires LowZero(h)
    ensures !Odd(h) && !Odd(Half(h)) && !Odd(Half(Half(h))) && !Odd(Half(Half(Half(h))))
    ensures var k := Half(Half(Half(Half(h)))); !Odd(k) && !Odd(Half(k)) && !Odd(Half(Half(k))) && !Odd(Half(Half(Half(k))))
    ensures Half(Half(Half(Half(Half(Half(Half(Half(h)))))))) == Top(h)
  {
  }

  lemma Shifts(h: bv16, z: bv16)
    requires LowZero(h)
    ensures ShiftEight(Xor(h, z)) == Xor(Top(h), ShiftEight(z))
  {
    hide ShiftOne, Xor, Half, Odd, Top, LowZero;
    var h1, z1 := Half(h), ShiftOne(z);
    var h2, z2 := Half(h1), ShiftOne(z1);
    var h3, z3 := Half(h2), ShiftOne(z2);
    var h4, z4 := Half(h3), ShiftOne(z3);
    var h5, z5 := Half(h4), ShiftOne(z4);
    var h6, z6 := Half(h5), ShiftOne(z5);
    var h7, z7 := Half(h6), ShiftOne(z6);
    Halves(h);
    OneShift(h, z);
    OneShift(h1, z1);
    OneShift(h2, z2);
    OneShift(h3, z3);
    OneShift(h4, z4);
    OneShift(h5, z5);
    OneShift(h6, z6);
    OneShift(h7, z7);
  }

  lemma TwoBytes(x: bv16)
    ensures Xor(HighByte(x), LowByte(x)) == x && LowZero(HighByte(x)) && Top(HighByte(x)) == Top(x)
  {
  }

  lemma HighByteShiftsOut(x: bv16)
    ensures ShiftEight(x) == Xor(Top(x), ShiftEight(LowByte(x)))
  {
    hide ShiftEight, Xor, Top, HighByte, LowByte, LowZero;
    TwoBytes(x);
    Shifts(HighByte(x), LowByte(x));
  }
}
