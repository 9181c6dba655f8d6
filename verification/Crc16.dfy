/** The CRC of the JTAG ICE mkII protocol: crc16.c, against the bit-serial CRC
    with reflected polynomial 0x8408. */
module Crc16 {
  import opened CrcShift

  type byte = bv8

  const CRC_INIT: bv16 := 0xffff

  function Row0(lo: byte): bv16 {
    match lo
    case 0 => 0x0000 case 1 => 0x1189 case 2 => 0x2312 case 3 => 0x329b
    case 4 => 0x4624 case 5 => 0x57ad case 6 => 0x6536 case 7 => 0x74bf
    case 8 => 0x8c48 case 9 => 0x9dc1 case 10 => 0xaf5a case 11 => 0xbed3
    case 12 => 0xca6c case 13 => 0xdbe5 case 14 => 0xe97e case 15 => 0xf8f7
    case _ => 0
  }

  function Row1(lo: byte): bv16 {
    match lo
    case 0 => 0x1081 case 1 => 0x0108 case 2 => 0x3393 case 3 => 0x221a
    case 4 => 0x56a5 case 5 => 0x472c case 6 => 0x75b7 case 7 => 0x643e
    case 8 => 0x9cc9 case 9 => 0x8d40 case 10 => 0xbfdb case 11 => 0xae52
    case 12 => 0xdaed case 13 => 0xcb64 case 14 => 0xf9ff case 15 => 0xe876
    case _ => 0
  }

  function Row2(lo: byte): bv16 {
    match lo
    case 0 => 0x2102 case 1 => 0x308b case 2 => 0x0210 case 3 => 0x1399
    case 4 => 0x6726 case 5 => 0x76af case 6 => 0x4434 case 7 => 0x55bd
    case 8 => 0xad4a case 9 => 0xbcc3 case 10 => 0x8e58 case 11 => 0x9fd1
    case 12 => 0xeb6e case 13 => 0xfae7 case 14 => 0xc87c case 15 => 0xd9f5
    case _ => 0
  }

  function Row3(lo: byte): bv16 {
    match lo
    case 0 => 0x3183 case 1 => 0x200a case 2 => 0x1291 case 3 => 0x0318
    case 4 => 0x77a7 case 5 => 0x662e case 6 => 0x54b5 case 7 => 0x453c
    case 8 => 0xbdcb case 9 => 0xac42 case 10 => 0x9ed9 case 11 => 0x8f50
    case 12 => 0xfbef case 13 => 0xea66 case 14 => 0xd8fd case 15 => 0xc974
    case _ => 0
  }

  function Row4(lo: byte): bv16 {
    match lo
    case 0 => 0x4204 case 1 => 0x538d case 2 => 0x6116 case 3 => 0x709f
    case 4 => 0x0420 case 5 => 0x15a9 case 6 => 0x2732 case 7 => 0x36bb
    case 8 => 0xce4c case 9 => 0xdfc5 case 10 => 0xed5e case 11 => 0xfcd7
    case 12 => 0x8868 case 13 => 0x99e1 case 14 => 0xab7a case 15 => 0xbaf3
    case _ => 0
  }

  function Row5(lo: byte): bv16 {
    match lo
    case 0 => 0x5285 case 1 => 0x430c case 2 => 0x7197 case 3 => 0x601e
    case 4 => 0x14a1 case 5 => 0x0528 case 6 => 0x37b3 case 7 => 0x263a
    case 8 => 0xdecd case 9 => 0xcf44 case 10 => 0xfddf case 11 => 0xec56
    case 12 => 0x98e9 case 13 => 0x8960 case 14 => 0xbbfb case 15 => 0xaa72
    case _ => 0
  }

  function Row6(lo: byte): bv16 {
    match lo
    case 0 => 0x6306 case 1 => 0x728f case 2 => 0x4014 case 3 => 0x519d
    case 4 => 0x2522 case 5 => 0x34ab case 6 => 0x0630 case 7 => 0x17b9
    case 8 => 0xef4e case 9 => 0xfec7 case 10 => 0xcc5c case 11 => 0xddd5
    case 12 => 0xa96a case 13 => 0xb8e3 case 14 => 0x8a78 case 15 => 0x9bf1
    case _ => 0
  }

  function Row7(lo: byte): bv16 {
    match lo
    case 0 => 0x7387 case 1 => 0x620e case 2 => 0x5095 case 3 => 0x411c
    case 4 => 0x35a3 case 5 => 0x242a case 6 => 0x16b1 case 7 => 0x0738
    case 8 => 0xffcf case 9 => 0xee46 case 10 => 0xdcdd case 11 => 0xcd54
    case 12 => 0xb9eb case 13 => 0xa862 case 14 => 0x9af9 case 15 => 0x8b70
    case _ => 0
  }

  function Row8(lo: byte): bv16 {
    match lo
    case 0 => 0x8408 case 1 => 0x9581 case 2 => 0xa71a case 3 => 0xb693
    case 4 => 0xc22c case 5 => 0xd3a5 case 6 => 0xe13e case 7 => 0xf0b7
    case 8 => 0x0840 case 9 => 0x19c9 case 10 => 0x2b52 case 11 => 0x3adb
    case 12 => 0x4e64 case 13 => 0x5fed case 14 => 0x6d76 case 15 => 0x7cff
    case _ => 0
  }

  function Row9(lo: byte): bv16 {
    match lo
    case 0 => 0x9489 case 1 => 0x8500 case 2 => 0xb79b case 3 => 0xa612
    case 4 => 0xd2ad case 5 => 0xc324 case 6 => 0xf1bf case 7 => 0xe036
    case 8 => 0x18c1 case 9 => 0x0948 case 10 => 0x3bd3 case 11 => 0x2a5a
    case 12 => 0x5ee5 case 13 => 0x4f6c case 14 => 0x7df7 case 15 => 0x6c7e
    case _ => 0
  }

  function RowA(lo: byte): bv16 {
    match lo
    case 0 => 0xa50a case 1 => 0xb483 case 2 => 0x8618 case 3 => 0x9791
    case 4 => 0xe32e case 5 => 0xf2a7 case 6 => 0xc03c case 7 => 0xd1b5
    case 8 => 0x2942 case 9 => 0x38cb case 10 => 0x0a50 case 11 => 0x1bd9
    case 12 => 0x6f66 case 13 => 0x7eef case 14 => 0x4c74 case 15 => 0x5dfd
    case _ => 0
  }

  function RowB(lo: byte): bv16 {
    match lo
    case 0 => 0xb58b case 1 => 0xa402 case 2 => 0x9699 case 3 => 0x8710
    case 4 => 0xf3af case 5 => 0xe226 case 6 => 0xd0bd case 7 => 0xc134
    case 8 => 0x39c3 case 9 => 0x284a case 10 => 0x1ad1 case 11 => 0x0b58
    case 12 => 0x7fe7 case 13 => 0x6e6e case 14 => 0x5cf5 case 15 => 0x4d7c
    case _ => 0
  }

  function RowC(lo: byte): bv16 {
    match lo
    case 0 => 0xc60c case 1 => 0xd785 case 2 => 0xe51e case 3 => 0xf497
    case 4 => 0x8028 case 5 => 0x91a1 case 6 => 0xa33a case 7 => 0xb2b3
    case 8 => 0x4a44 case 9 => 0x5bcd case 10 => 0x6956 case 11 => 0x78df
    case 12 => 0x0c60 case 13 => 0x1de9 case 14 => 0x2f72 case 15 => 0x3efb
    case _ => 0
  }

  function RowD(lo: byte): bv16 {
    match lo
    case 0 => 0xd68d case 1 => 0xc704 case 2 => 0xf59f case 3 => 0xe416
    case 4 => 0x90a9 case 5 => 0x8120 case 6 => 0xb3bb case 7 => 0xa232
    case 8 => 0x5ac5 case 9 => 0x4b4c case 10 => 0x79d7 case 11 => 0x685e
    case 12 => 0x1ce1 case 13 => 0x0d68 case 14 => 0x3ff3 case 15 => 0x2e7a
    case _ => 0
  }

  function RowE(lo: byte): bv16 {
    match lo
    case 0 => 0xe70e case 1 => 0xf687 case 2 => 0xc41c case 3 => 0xd595
    case 4 => 0xa12a case 5 => 0xb0a3 case 6 => 0x8238 case 7 => 0x93b1
    case 8 => 0x6b46 case 9 => 0x7acf case 10 => 0x4854 case 11 => 0x59dd
    case 12 => 0x2d62 case 13 => 0x3ceb case 14 => 0x0e70 case 15 => 0x1ff9
    case _ => 0
  }

  function RowF(lo: byte): bv16 {
    match lo
    case 0 => 0xf78f case 1 => 0xe606 case 2 => 0xd49d case 3 => 0xc514
    case 4 => 0xb1ab case 5 => 0xa022 case 6 => 0x92b9 case 7 => 0x8330
    case 8 => 0x7bc7 case 9 => 0x6a4e case 10 => 0x58d5 case 11 => 0x495c
    case 12 => 0x3de3 case 13 => 0x2c6a case 14 => 0x1ef1 case 15 => 0x0f78
    case _ => 0
  }

  /** crc_table, in sixteen rows of sixteen entries. */
  function Table(b: byte): bv16 {
    var lo := b & 0x0f;
    match b & 0xf0
    case 0x00 => Row0(lo)
    case 0x10 => Row1(lo)
    case 0x20 => Row2(lo)
    case 0x30 => Row3(lo)
    case 0x40 => Row4(lo)
    case 0x50 => Row5(lo)
    case 0x60 => Row6(lo)
    case 0x70 => Row7(lo)
    case 0x80 => Row8(lo)
    case 0x90 => Row9(lo)
    case 0xa0 => RowA(lo)
    case 0xb0 => RowB(lo)
    case 0xc0 => RowC(lo)
    case 0xd0 => RowD(lo)
    case 0xe0 => RowE(lo)
    case _ => RowF(lo)
  }

  // ----- the bit-serial CRC

  function SerialByte(crc: bv16, c: byte): bv16 {
    ShiftEight(crc ^ c as bv16)
  }

  function SerialCrc(s: seq<byte>, crc: bv16): bv16 {
    if s == [] then crc else SerialCrc(s[1..], SerialByte(crc, s[0]))
  }

  // ----- the table-driven CRC

  function Low(x: bv16): byte {
    (x & 0xff) as bv8
  }

  /** The CRC macro. */
  function Step(crc: bv16, c: byte): bv16 {
    (crc >> 8) ^ Table(Low(crc ^ c as bv16))
  }

  function Crc(s: seq<byte>, crc: bv16): bv16 {
    if s == [] then crc else Crc(s[1..], Step(crc, s[0]))
  }

  lemma Row0IsSerial(b: byte)
    requires b & 0xf0 == 0x00
    ensures Row0(b & 0x0f) == ShiftEight(b as bv16)
  {
  }

  lemma Row1IsSerial(b: byte)
    requires b & 0xf0 == 0x10
    ensures Row1(b & 0x0f) == ShiftEight(b as bv16)
  {
  }

  lemma Row2IsSerial(b: byte)
    requires b & 0xf0 == 0x20
    ensures Row2(b & 0x0f) == ShiftEight(b as bv16)
  {
  }

  lemma Row3IsSerial(b: byte)
    requires b & 0xf0 == 0x30
    ensures Row3(b & 0x0f) == ShiftEight(b as bv16)
  {
  }

  lemma Row4IsSerial(b: byte)
    requires b & 0xf0 == 0x40
    ensures Row4(b & 0x0f) == ShiftEight(b as bv16)
  {
  }

  lemma Row5IsSerial(b: byte)
    requires b & 0xf0 == 0x50
    ensures Row5(b & 0x0f) == ShiftEight(b as bv16)
  {
  }

  lemma Row6IsSerial(b: byte)
    requires b & 0xf0 == 0x60
    ensures Row6(b & 0x0f) == ShiftEight(b as bv16)
  {
  }

  lemma Row7IsSerial(b: byte)
    requires b & 0xf0 == 0x70
    ensures Row7(b & 0x0f) == ShiftEight(b as bv16)
  {
  }

  lemma Row8IsSerial(b: byte)
    requires b & 0xf0 == 0x80
    ensures Row8(b & 0x0f) == ShiftEight(b as bv16)
  {
  }

  lemma Row9IsSerial(b: byte)
    requires b & 0xf0 == 0x90
    ensures Row9(b & 0x0f) == ShiftEight(b as bv16)
  {
  }

  lemma RowAIsSerial(b: byte)
    requires b & 0xf0 == 0xa0
    ensures RowA(b & 0x0f) == ShiftEight(b as bv16)
  {
  }

  lemma RowBIsSerial(b: byte)
    requires b & 0xf0 == 0xb0
    ensures RowB(b & 0x0f) == ShiftEight(b as bv16)
  {
  }

  lemma RowCIsSerial(b: byte)
    requires b & 0xf0 == 0xc0
    ensures RowC(b & 0x0f) == ShiftEight(b as bv16)
  {
  }

  lemma RowDIsSerial(b: byte)
    requires b & 0xf0 == 0xd0
    ensures RowD(b & 0x0f) == ShiftEight(b as bv16)
  {
  }

  lemma RowEIsSerial(b: byte)
    requires b & 0xf0 == 0xe0
    ensures RowE(b & 0x0f) == ShiftEight(b as bv16)
  {
  }

  lemma RowFIsSerial(b: byte)
    requires b & 0xf0 == 0xf0
    ensures RowF(b & 0x0f) == ShiftEight(b as bv16)
  {
  }

  lemma LastRow(b: byte)
    requires b & 0xf0 !in {0x00, 0x10, 0x20, 0x30, 0x40, 0x50, 0x60, 0x70, 0x80, 0x90, 0xa0, 0xb0, 0xc0, 0xd0, 0xe0}
    ensures b & 0xf0 == 0xf0
  {
  }

  lemma TableIsSerial(b: byte)
    ensures Table(b) == ShiftEight(b as bv16)
  {
    hide ShiftEight, Row0, Row1, Row2, Row3, Row4, Row5, Row6, Row7, Row8, Row9, RowA, RowB, RowC, RowD, RowE, RowF;
    match b & 0xf0
    case 0x00 => Row0IsSerial(b);
    case 0x10 => Row1IsSerial(b);
    case 0x20 => Row2IsSerial(b);
    case 0x30 => Row3IsSerial(b);
    case 0x40 => Row4IsSerial(b);
    case 0x50 => Row5IsSerial(b);
    case 0x60 => Row6IsSerial(b);
    case 0x70 => Row7IsSerial(b);
    case 0x80 => Row8IsSerial(b);
    case 0x90 => Row9IsSerial(b);
    case 0xa0 => RowAIsSerial(b);
    case 0xb0 => RowBIsSerial(b);
    case 0xc0 => RowCIsSerial(b);
    case 0xd0 => RowDIsSerial(b);
    case 0xe0 => RowEIsSerial(b);
    case _ =>
      LastRow(b);
      RowFIsSerial(b);
  }

  lemma MixedHighByte(crc: bv16, c: byte)
    ensures (crc ^ c as bv16) >> 8 == crc >> 8
  {
  }

  lemma TableStep(x: bv16)
    ensures (x >> 8) ^ Table(Low(x)) == ShiftEight(x)
  {
    hide Table, ShiftEight, Low, LowByte;
    HighByteShiftsOut(x);
    TableIsSerial(Low(x));
    LowIsMask(x);
  }

  lemma LowIsMask(x: bv16)
    ensures Low(x) as bv16 == LowByte(x)
  {
  }

  lemma StepIsSerial(crc: bv16, c: byte)
    ensures Step(crc, c) == SerialByte(crc, c)
  {
    hide Table, ShiftEight, Low;
    TableStep(crc ^ c as bv16);
    MixedHighByte(crc, c);
  }

  /** The table-driven CRC computes the bit-serial CRC of every message. */
  lemma {:induction false} CrcIsSerial(s: seq<byte>, crc: bv16)
    ensures Crc(s, crc) == SerialCrc(s, crc)
    decreases |s|
  {
    if s != [] {
      StepIsSerial(crc, s[0]);
      CrcIsSerial(s[1..], Step(crc, s[0]));
    }
  }

  // ----- the message functions

  /** crcsum. */
  method CrcSum(message: array<byte>, length: nat, crc: bv16) returns (r: bv16)
    requires length <= message.Length
    ensures r == Crc(message[..length], crc)
  {
    r := crc;
    var i := 0;
    assert message[..0] == [];
    while i < length
      invariant 0 <= i <= length && r == Crc(message[..i], crc)
    {
      CrcAppend(message[..i], [message[i]], crc);
      OneStep(r, message[i]);
      assert message[..i + 1] == message[..i] + [message[i]];
      r := Step(r, message[i]);
      i := i + 1;
    }
  }

  lemma {:induction false} CrcAppend(a: seq<byte>, b: seq<byte>, crc: bv16)
    ensures Crc(a + b, crc) == Crc(b, Crc(a, crc))
    decreases |a|
  {
    if a == [] {
      assert a + b == b;
    } else {
      assert (a + b)[1..] == a[1..] + b;
      CrcAppend(a[1..], b, Step(crc, a[0]));
    }
  }

  lemma OneStep(crc: bv16, c: byte)
    ensures Crc([c], crc) == Step(crc, c)
  {
    assert [c][1..] == [];
  }

  function High(x: bv16): byte {
    (x >> 8) as bv8
  }

  /** A message followed by its CRC, low byte first. */
  function WithCrc(s: seq<byte>): seq<byte> {
    s + [Low(Crc(s, CRC_INIT)), High(Crc(s, CRC_INIT))]
  }

  /** The last two bytes are the CRC of the others. */
  predicate CrcGood(s: seq<byte>)
    requires |s| >= 2
  {
    s == WithCrc(s[..|s| - 2])
  }

  /** crcappend writes the CRC behind the message, in the caller's buffer. */
  method CrcAppendTo(message: array<byte>, length: nat)
    requires length + 2 <= message.Length
    modifies message
    ensures message[..length + 2] == WithCrc(old(message[..length]))
    ensures message[length + 2..] == old(message[length + 2..])
  {
    var crc := CrcSum(message, length, CRC_INIT);
    message[length] := Low(crc);
    message[length + 1] := High(crc);
  }

  /** crcverify. */
  method CrcVerify(message: array<byte>, length: nat) returns (good: bool)
    requires 2 <= length <= message.Length
    ensures good <==> CrcGood(message[..length])
  {
    hide Low, High;
    var expected := CrcSum(message, length - 2, CRC_INIT);
    good := Low(expected) == message[length - 2] && High(expected) == message[length - 1];
    assert message[..length][..length - 2] == message[..length - 2];
    assert message[..length] == message[..length - 2] + [message[length - 2], message[length - 1]];
  }

  lemma AppendedIsGood(s: seq<byte>)
    ensures CrcGood(WithCrc(s))
  {
    assert WithCrc(s)[..|s|] == s;
  }

  /** The two bytes behind a message hold the bit-serial CRC, started at 0xffff, low byte first. */
  lemma FieldIsSerial(s: seq<byte>)
    ensures var f := WithCrc(s); |f| == |s| + 2 && f[..|s|] == s
    ensures var f := WithCrc(s); (f[|s| + 1] as bv16 << 8) | f[|s|] as bv16 == SerialCrc(s, 0xffff)
  {
    hide Low, High, Crc, SerialCrc;
    CrcIsSerial(s, 0xffff);
    TwoHalves(Crc(s, 0xffff));
  }

  lemma TwoHalves(x: bv16)
    ensures (High(x) as bv16 << 8) | Low(x) as bv16 == x
  {
  }

  // ----- which changes the CRC detects

  /** Different bytes have table entries with different high bytes. */
  lemma HighByteTells(a: byte, b: byte)
    requires High(ShiftEight(a as bv16)) == High(ShiftEight(b as bv16))
    ensures a == b
  {
  }

  function Mix(a: byte, b: byte): byte {
    a ^ b
  }

  lemma StepHigh(crc: bv16, c: byte)
    ensures High(Step(crc, c)) == High(ShiftEight(Low(crc ^ c as bv16) as bv16))
    ensures Low(crc ^ c as bv16) == Mix(Low(crc), c)
  {
    hide ShiftEight, Table;
    TableIsSerial(Low(crc ^ c as bv16));
    XorHigh(crc, Table(Low(crc ^ c as bv16)));
    XorLow(crc, c);
  }

  lemma XorHigh(crc: bv16, t: bv16)
    ensures High((crc >> 8) ^ t) == High(t)
  {
  }

  lemma XorLow(crc: bv16, c: byte)
    ensures Low(crc ^ c as bv16) == Mix(Low(crc), c)
  {
  }

  lemma MixCancels(a: byte, c: byte, d: byte)
    requires Mix(a, c) == Mix(a, d)
    ensures c == d
  {
  }

  lemma MixCancelsLeft(a: byte, b: byte, c: byte)
    requires Mix(a, c) == Mix(b, c)
    ensures a == b
  {
  }

  lemma Halves(a: bv16, b: bv16)
    requires Low(a) == Low(b) && High(a) == High(b)
    ensures a == b
  {
  }

  lemma XorBoth(a: bv16, b: bv16, t: bv16)
    requires (a >> 8) ^ t == (b >> 8) ^ t
    ensures High(a) == High(b)
  {
  }

  /** Equal results come from equal high bytes and equal index bytes. */
  lemma StepInjective(a: bv16, b: bv16, c: byte, d: byte)
    requires Step(a, c) == Step(b, d)
    ensures High(a) == High(b) && Mix(Low(a), c) == Mix(Low(b), d)
  {
    StepHigh(a, c);
    StepHigh(b, d);
    hide ShiftEight, Table, Low, High, Mix;
    HighByteTells(Low(a ^ c as bv16), Low(b ^ d as bv16));
    XorBoth(a, b, Table(Low(a ^ c as bv16)));
  }

  lemma SameStep(a: bv16, b: bv16, c: byte)
    requires Step(a, c) == Step(b, c)
    ensures a == b
  {
    hide Step, Low, High, Mix;
    StepInjective(a, b, c, c);
    MixCancelsLeft(Low(a), Low(b), c);
    Halves(a, b);
  }

  /** A difference in the register survives any equal bytes that follow. */
  lemma {:induction false} DifferenceSurvives(a: bv16, b: bv16, s: seq<byte>)
    requires a != b
    ensures Crc(s, a) != Crc(s, b)
    decreases |s|
  {
    hide Step;
    if s != [] {
      var c := s[0];
      assert Step(a, c) != Step(b, c) by {
        if Step(a, c) == Step(b, c) {
          SameStep(a, b, c);
        }
      }
      DifferenceSurvives(Step(a, c), Step(b, c), s[1..]);
    }
  }

  lemma StepTellsByte(crc: bv16, p: byte, p': byte)
    requires High(Step(crc, p)) == High(Step(crc, p'))
    ensures p == p'
  {
    StepHigh(crc, p);
    StepHigh(crc, p');
    hide ShiftEight, Table, Low, High, Mix, Step;
    HighByteTells(Low(crc ^ p as bv16), Low(crc ^ p' as bv16));
    MixCancels(Low(crc), p, p');
  }

  /** Two adjacent bytes, started from one register, are determined by the register they leave. */
  lemma PairTells(crc: bv16, p: byte, q: byte, p': byte, q': byte)
    requires Step(Step(crc, p), q) == Step(Step(crc, p'), q')
    ensures p == p' && q == q'
  {
    hide Step, Low, High, Mix;
    StepInjective(Step(crc, p), Step(crc, p'), q, q');
    StepTellsByte(crc, p, p');
    MixCancels(Low(Step(crc, p)), q, q');
  }

  lemma ZeroResidueBytes(crc: bv16)
    ensures Step(Step(crc, Low(crc)), High(crc)) == 0
  {
    assert Table(0) == 0;
    assert Low(crc ^ Low(crc) as bv16) == 0;
    assert Low((crc >> 8) ^ High(crc) as bv16) == 0;
    assert (crc >> 8) >> 8 == 0;
    assert Step(crc, Low(crc)) == crc >> 8;
  }

  lemma GoodField(s: seq<byte>)
    requires |s| >= 2
    ensures var crc := Crc(s[..|s| - 2], CRC_INIT);
      CrcGood(s) <==> s[|s| - 2] == Low(crc) && s[|s| - 1] == High(crc)
  {
    hide Low, High;
    var n := |s| - 2;
    assert s == s[..n] + [s[n], s[n + 1]];
  }

  lemma PairRun(s: seq<byte>, crc: bv16)
    requires |s| >= 2
    ensures Crc(s, crc) == Step(Step(Crc(s[..|s| - 2], crc), s[|s| - 2]), s[|s| - 1])
  {
    AroundPair(s, |s| - 2, crc);
    assert s[|s|..] == [];
  }

  /** Running the CRC over message and CRC field leaves zero exactly if the field is right. */
  lemma GoodMeansZero(s: seq<byte>)
    requires |s| >= 2
    ensures CrcGood(s) <==> Crc(s, CRC_INIT) == 0
  {
    hide Step, Low, High, CrcGood, Crc;
    var crc := Crc(s[..|s| - 2], CRC_INIT);
    var p, q := s[|s| - 2], s[|s| - 1];
    GoodField(s);
    PairRun(s, CRC_INIT);
    ZeroResidueBytes(crc);
    if Step(Step(crc, p), q) == 0 {
      PairTells(crc, p, q, Low(crc), High(crc));
    }
  }

  /** Messages that agree outside positions k and k + 1. */
  predicate DifferOnlyAt(s: seq<byte>, t: seq<byte>, k: nat) {
    |s| == |t| && k + 2 <= |s| && s[..k] == t[..k] && s[k + 2..] == t[k + 2..]
  }

  /** A good message changed within one byte, or two adjacent ones, is no longer good,
      wherever the change is. */
  lemma ChangeIsDetected(s: seq<byte>, t: seq<byte>, k: nat)
    requires DifferOnlyAt(s, t, k) && s != t && CrcGood(s)
    ensures !CrcGood(t)
  {
    hide Step, CrcGood;
    GoodMeansZero(s);
    GoodMeansZero(t);
    AroundPair(s, k, CRC_INIT);
    AroundPair(t, k, CRC_INIT);
    var crc := Crc(s[..k], CRC_INIT);
    assert s == s[..k] + [s[k], s[k + 1]] + s[k + 2..];
    assert t == t[..k] + [t[k], t[k + 1]] + t[k + 2..];
    var a, b := Step(Step(crc, s[k]), s[k + 1]), Step(Step(crc, t[k]), t[k + 1]);
    assert a != b by {
      if a == b {
        PairTells(crc, s[k], s[k + 1], t[k], t[k + 1]);
      }
    }
    DifferenceSurvives(a, b, s[k + 2..]);
  }

  lemma ByteChangeIsDetected(s: seq<byte>, k: nat, v: byte)
    requires 2 <= |s| && k < |s| && CrcGood(s) && v != s[k]
    ensures !CrcGood(s[k := v])
  {
    hide CrcGood;
    var t := s[k := v];
    var i := if k < |s| - 1 then k else k - 1;
    assert s[..i] == t[..i] && s[i + 2..] == t[i + 2..];
    ChangeIsDetected(s, t, i);
  }

  lemma AroundPair(s: seq<byte>, k: nat, crc: bv16)
    requires k + 2 <= |s|
    ensures Crc(s, crc) == Crc(s[k + 2..], Step(Step(Crc(s[..k], crc), s[k]), s[k + 1]))
  {
    assert s == s[..k] + s[k..];
    CrcAppend(s[..k], s[k..], crc);
    assert s[k..][1..] == s[k + 1..] && s[k + 1..][1..] == s[k + 2..];
  }
}
