/** SPI over synchronous bit-bang: how ft245r.c turns command bytes into pin
    samples, what an AVR sees of those samples, and how reply bytes are
    recovered from the samples that come back. */
module Ft245rSpi {

  import opened Options

  type byte = bv8

  // ----- pins

  datatype Pin = Pin(mask: bv8, inverse: bv8)

  datatype Pins = Pins(sck: Pin, mosi: Pin, miso: Pin)

  /** What pins_check guarantees: every pin is assigned and none is used twice. */
  predicate ValidPins(pins: Pins) {
    && pins.sck.mask != 0 && pins.mosi.mask != 0 && pins.miso.mask != 0
    && pins.sck.mask & pins.mosi.mask == 0
    && pins.sck.mask & pins.miso.mask == 0
    && pins.mosi.mask & pins.miso.mask == 0
  }

  function SetBits(x: bv8, pin: Pin, level: bool): bv8 {
    (x & !pin.mask) | (pin.mask & if level then !pin.inverse else pin.inverse)
  }

  function GetBits(x: bv8, pin: Pin): bv8 {
    (x ^ pin.inverse) & pin.mask
  }

  /** The logical level of a pin in a sample. */
  predicate Level(x: bv8, pin: Pin) {
    GetBits(x, pin) != 0
  }

  /** The output byte with MOSI at data and SCK at clock, all other pins as in out. */
  function Drive(pins: Pins, out: bv8, data: bool, clock: bool): bv8 {
    SetBits(SetBits(out, pins.mosi, data), pins.sck, clock)
  }

  lemma PinHolds(x: bv8, pin: Pin, level: bool)
    requires pin.mask != 0
    ensures Level(SetBits(x, pin, level), pin) == level
  {
  }

  lemma PinUntouched(x: bv8, pin: Pin, other: Pin, level: bool)
    requires pin.mask & other.mask == 0
    ensures Level(SetBits(x, other, level), pin) == Level(x, pin)
  {
  }

  lemma DriveLevels(pins: Pins, out: bv8, data: bool, clock: bool)
    requires ValidPins(pins)
    ensures Level(Drive(pins, out, data, clock), pins.mosi) == data
    ensures Level(Drive(pins, out, data, clock), pins.sck) == clock
  {
    hide Level, SetBits;
    PinHolds(out, pins.mosi, data);
    PinUntouched(SetBits(out, pins.mosi, data), pins.mosi, pins.sck, clock);
    PinHolds(SetBits(out, pins.mosi, data), pins.sck, clock);
  }

  /** On the wire a pin carries its logical level, or the opposite if it is inverted. */
  lemma WireLevels(pins: Pins, out: bv8, data: bool, clock: bool)
    requires ValidPins(pins)
    ensures var w := Drive(pins, out, data, clock);
      && w & pins.mosi.mask == pins.mosi.mask & (if data then !pins.mosi.inverse else pins.mosi.inverse)
      && w & pins.sck.mask == pins.sck.mask & (if clock then !pins.sck.inverse else pins.sck.inverse)
  {
    OnWire(out, pins.mosi, data);
    OtherWire(SetBits(out, pins.mosi, data), pins.sck, clock, pins.mosi);
    OnWire(SetBits(out, pins.mosi, data), pins.sck, clock);
    hide SetBits;
  }

  lemma OnWire(x: bv8, pin: Pin, level: bool)
    ensures SetBits(x, pin, level) & pin.mask == pin.mask & (if level then !pin.inverse else pin.inverse)
  {
  }

  lemma OtherWire(x: bv8, pin: Pin, level: bool, other: Pin)
    requires other.mask & pin.mask == 0
    ensures SetBits(x, pin, level) & other.mask == x & other.mask
  {
  }

  /** Pins other than clock and data, reset among them, keep their state. */
  lemma DriveKeepsOtherPins(pins: Pins, out: bv8, data: bool, clock: bool, other: Pin)
    requires other.mask & pins.sck.mask == 0 && other.mask & pins.mosi.mask == 0
    ensures Level(Drive(pins, out, data, clock), other) == Level(out, other)
  {
    hide Level, SetBits;
    PinUntouched(out, other, pins.mosi, data);
    PinUntouched(SetBits(out, pins.mosi, data), other, pins.sck, clock);
  }

  lemma SetBitsAgain(x: bv8, p: Pin, a: bool, b: bool)
    ensures SetBits(SetBits(x, p, a), p, b) == SetBits(x, p, b)
  {
  }

  lemma SetBitsCommute(x: bv8, p: Pin, q: Pin, a: bool, b: bool)
    requires p.mask & q.mask == 0
    ensures SetBits(SetBits(x, p, a), q, b) == SetBits(SetBits(x, q, b), p, a)
  {
  }

  lemma DriveForgets(pins: Pins, out: bv8, data: bool, clock: bool, data': bool, clock': bool)
    requires ValidPins(pins)
    ensures Drive(pins, Drive(pins, out, data, clock), data', clock') == Drive(pins, out, data', clock')
    ensures SetBits(Drive(pins, out, data, clock), pins.sck, clock') == Drive(pins, out, data, clock')
  {
    var x := SetBits(out, pins.mosi, data);
    calc {
      Drive(pins, Drive(pins, out, data, clock), data', clock');
    ==
      SetBits(SetBits(SetBits(x, pins.sck, clock), pins.mosi, data'), pins.sck, clock');
    == { SetBitsCommute(x, pins.sck, pins.mosi, clock, data'); }
      SetBits(SetBits(SetBits(x, pins.mosi, data'), pins.sck, clock), pins.sck, clock');
    == { SetBitsAgain(SetBits(x, pins.mosi, data'), pins.sck, clock, clock'); }
      SetBits(SetBits(x, pins.mosi, data'), pins.sck, clock');
    == { SetBitsAgain(out, pins.mosi, data, data'); }
      Drive(pins, out, data', clock');
    }
    SetBitsAgain(x, pins.sck, clock, clock');
  }

  // ----- bytes as bits, most significant first

  function BitMask(j: nat): bv8
    requires j <= 8
  {
    match j
    case 0 => 0x80 case 1 => 0x40 case 2 => 0x20 case 3 => 0x10
    case 4 => 0x08 case 5 => 0x04 case 6 => 0x02 case 7 => 0x01
    case _ => 0x00
  }

  predicate BitOf(b: byte, j: nat)
    requires j < 8
  {
    b & BitMask(j) != 0
  }

  function Bits(b: byte): (s: seq<bool>)
    ensures |s| == 8 && forall j | 0 <= j < 8 :: s[j] == BitOf(b, j)
  {
    [BitOf(b, 0), BitOf(b, 1), BitOf(b, 2), BitOf(b, 3), BitOf(b, 4), BitOf(b, 5), BitOf(b, 6), BitOf(b, 7)]
  }

  function BitIf(b: bool, mask: bv8): bv8 {
    if b then mask else 0
  }

  function FromBits(s: seq<bool>): byte
    requires |s| == 8
  {
    BitIf(s[0], 0x80) | BitIf(s[1], 0x40) | BitIf(s[2], 0x20) | BitIf(s[3], 0x10) |
    BitIf(s[4], 0x08) | BitIf(s[5], 0x04) | BitIf(s[6], 0x02) | BitIf(s[7], 0x01)
  }

  lemma FromBitsOfBits(b: byte)
    ensures FromBits(Bits(b)) == b
  {
  }

  lemma BitsDetermineByte(a: byte, b: byte)
    requires forall j | 0 <= j < 8 :: BitOf(a, j) == BitOf(b, j)
    ensures a == b
  {
    assert Bits(a) == Bits(b);
    FromBitsOfBits(a);
    FromBitsOfBits(b);
  }

  // ----- the samples of a bit string

  /** Two samples a bit: data with the clock low, then the same with the clock high. */
  function Samples(pins: Pins, out: bv8, bits: seq<bool>): (s: seq<bv8>)
    ensures |s| == 2 * |bits|
  {
    if bits == [] then []
    else [Drive(pins, out, bits[0], false), Drive(pins, out, bits[0], true)] + Samples(pins, out, bits[1..])
  }

  lemma {:induction false} SamplesAppend(pins: Pins, out: bv8, a: seq<bool>, b: seq<bool>)
    ensures Samples(pins, out, a + b) == Samples(pins, out, a) + Samples(pins, out, b)
  {
    if a == [] {
      assert a + b == b;
    } else {
      SamplesAppend(pins, out, a[1..], b);
      assert (a + b)[1..] == a[1..] + b;
    }
  }

  lemma SamplesSnoc(pins: Pins, out: bv8, bits: seq<bool>, j: nat)
    requires j < |bits|
    ensures Samples(pins, out, bits[..j + 1])
         == Samples(pins, out, bits[..j]) + [Drive(pins, out, bits[j], false), Drive(pins, out, bits[j], true)]
  {
    assert bits[..j + 1] == bits[..j] + [bits[j]];
    SamplesAppend(pins, out, bits[..j], [bits[j]]);
  }

  lemma {:induction false} SamplesForget(pins: Pins, out: bv8, data: bool, clock: bool, bits: seq<bool>)
    requires ValidPins(pins)
    ensures Samples(pins, Drive(pins, out, data, clock), bits) == Samples(pins, out, bits)
  {
    if bits != [] {
      DriveForgets(pins, out, data, clock, bits[0], false);
      DriveForgets(pins, out, data, clock, bits[0], true);
      SamplesForget(pins, out, data, clock, bits[1..]);
    }
  }

  // ----- the device on the other side of the pins

  datatype Command = Command(b0: byte, b1: byte, b2: byte, b3: byte)

  function CommandBits(c: Command): (s: seq<bool>)
    ensures |s| == 32
  {
    Bits(c.b0) + Bits(c.b1) + Bits(c.b2) + Bits(c.b3)
  }

  function CommandOf(s: seq<bool>): Command
    requires |s| == 32
  {
    Command(FromBits(s[..8]), FromBits(s[8..16]), FromBits(s[16..24]), FromBits(s[24..]))
  }

  lemma CommandRoundTrip(c: Command)
    ensures CommandOf(CommandBits(c)) == c
  {
    var s := CommandBits(c);
    assert s[..8] == Bits(c.b0);
    assert s[8..16] == Bits(c.b1);
    assert s[16..24] == Bits(c.b2);
    assert s[24..] == Bits(c.b3);
    FromBitsOfBits(c.b0);
    FromBitsOfBits(c.b1);
    FromBitsOfBits(c.b2);
    FromBitsOfBits(c.b3);
  }

  /** What the device answers during the fourth byte, from the first three. */
  type Reply = (byte, byte, byte) -> byte

  /** An AVR in serial programming mode: it shifts MOSI in on a rising clock edge
      and moves the next bit of its answer to MISO on a falling edge.  During the
      first three bytes of a command its MISO level is left open. */
  datatype Chip = Chip(sck: bool, bits: seq<bool>, miso: Option<bool>, log: seq<Command>)

  predicate ValidChip(c: Chip) {
    |c.bits| < 32
  }

  /** The MISO level the device chooses at a falling edge. */
  function Presented(reply: Reply, bits: seq<bool>): Option<bool>
    requires |bits| < 32
  {
    if |bits| < 24 then None
    else Some(BitOf(reply(FromBits(bits[..8]), FromBits(bits[8..16]), FromBits(bits[16..24])), |bits| - 24))
  }

  function Shift(c: Chip, data: bool): (r: Chip)
    requires ValidChip(c)
    ensures ValidChip(r)
  {
    var bits := c.bits + [data];
    if |bits| == 32 then c.(sck := true, bits := [], log := c.log + [CommandOf(bits)])
    else c.(sck := true, bits := bits)
  }

  /** One sample written to the pins. */
  function ChipStep(pins: Pins, reply: Reply, c: Chip, w: bv8): (r: Chip)
    requires ValidChip(c)
    ensures ValidChip(r)
  {
    var clock := Level(w, pins.sck);
    if clock && !c.sck then Shift(c, Level(w, pins.mosi))
    else if !clock && c.sck then c.(sck := false, miso := Presented(reply, c.bits))
    else c
  }

  function ChipRun(pins: Pins, reply: Reply, c: Chip, ws: seq<bv8>): (r: Chip)
    requires ValidChip(c)
    ensures ValidChip(r)
    decreases |ws|
  {
    if ws == [] then c else ChipRun(pins, reply, ChipStep(pins, reply, c, ws[0]), ws[1..])
  }

  /** rs are samples the adapter can return for ws: one for each written sample,
      taken from the pins just before that sample is written. */
  predicate Transcript(pins: Pins, reply: Reply, c: Chip, ws: seq<bv8>, rs: seq<bv8>)
    requires ValidChip(c)
    decreases |ws|
  {
    |ws| == |rs| &&
    (ws != [] ==>
      && (c.miso.Some? ==> Level(rs[0], pins.miso) == c.miso.value)
      && Transcript(pins, reply, ChipStep(pins, reply, c, ws[0]), ws[1..], rs[1..]))
  }

  lemma {:induction false} TranscriptAppend(
      pins: Pins, reply: Reply, c: Chip, ws: seq<bv8>, rs: seq<bv8>, ws': seq<bv8>, rs': seq<bv8>)
    requires ValidChip(c) && |ws| == |rs|
    ensures ChipRun(pins, reply, c, ws + ws') == ChipRun(pins, reply, ChipRun(pins, reply, c, ws), ws')
    ensures Transcript(pins, reply, c, ws + ws', rs + rs') <==>
      Transcript(pins, reply, c, ws, rs) &&
      Transcript(pins, reply, ChipRun(pins, reply, c, ws), ws', rs')
    decreases |ws|
  {
    if ws == [] {
      assert ws + ws' == ws' && rs + rs' == rs';
    } else {
      assert (ws + ws')[1..] == ws[1..] + ws' && (rs + rs')[1..] == rs[1..] + rs';
      TranscriptAppend(pins, reply, ChipStep(pins, reply, c, ws[0]), ws[1..], rs[1..], ws', rs');
    }
  }

  // ----- the device seen bit by bit

  function ShiftBit(reply: Reply, c: Chip, data: bool): (r: Chip)
    requires ValidChip(c)
    ensures ValidChip(r) && r.sck
  {
    Shift(if c.sck then c.(miso := Presented(reply, c.bits)) else c, data)
  }

  function ShiftBits(reply: Reply, c: Chip, bits: seq<bool>): (r: Chip)
    requires ValidChip(c)
    ensures ValidChip(r) && (bits != [] ==> r.sck)
    decreases |bits|
  {
    if bits == [] then c else ShiftBits(reply, ShiftBit(reply, c, bits[0]), bits[1..])
  }

  lemma {:induction false} ShiftBitsAppend(reply: Reply, c: Chip, a: seq<bool>, b: seq<bool>)
    requires ValidChip(c)
    ensures ShiftBits(reply, c, a + b) == ShiftBits(reply, ShiftBits(reply, c, a), b)
    decreases |a|
  {
    if a == [] {
      assert a + b == b;
    } else {
      ShiftBitsAppend(reply, ShiftBit(reply, c, a[0]), a[1..], b);
      assert (a + b)[1..] == a[1..] + b;
    }
  }

  lemma PairShifts(pins: Pins, reply: Reply, c: Chip, out: bv8, data: bool)
    requires ValidPins(pins) && ValidChip(c)
    ensures var c1 := ChipStep(pins, reply, c, Drive(pins, out, data, false));
      c1.miso == (if c.sck then Presented(reply, c.bits) else c.miso) &&
      ChipStep(pins, reply, c1, Drive(pins, out, data, true)) == ShiftBit(reply, c, data)
  {
    DriveLevels(pins, out, data, false);
    DriveLevels(pins, out, data, true);
  }

  /** If the clock was high before bit j and the device is in the fourth byte, the
      high-clock sample of bit j carries the presented level. */
  predicate PresentedAt(pins: Pins, reply: Reply, c: Chip, bits: seq<bool>, rs: seq<bv8>, j: nat)
    requires ValidChip(c) && |rs| == 2 * |bits| && j < |bits|
  {
    var c' := ShiftBits(reply, c, bits[..j]);
    c'.sck && Presented(reply, c'.bits).Some? ==>
      Level(rs[2 * j + 1], pins.miso) == Presented(reply, c'.bits).value
  }

  /** The device shifts in exactly the bits that were encoded, and the sample
      taken with each high clock shows the bit it presents. */
  lemma {:induction false} SamplesShift(pins: Pins, reply: Reply, c: Chip, out: bv8, bits: seq<bool>, rs: seq<bv8>)
    requires ValidPins(pins) && ValidChip(c)
    requires Transcript(pins, reply, c, Samples(pins, out, bits), rs)
    ensures ChipRun(pins, reply, c, Samples(pins, out, bits)) == ShiftBits(reply, c, bits)
    ensures |rs| == 2 * |bits|
    ensures forall j | 0 <= j < |bits| :: PresentedAt(pins, reply, c, bits, rs, j)
    decreases |bits|
  {
    hide BitOf, FromBits, Level, Drive;
    if bits != [] {
      var ws := Samples(pins, out, bits);
      var c1 := ChipStep(pins, reply, c, ws[0]);
      PairShifts(pins, reply, c, out, bits[0]);
      var c2 := ChipStep(pins, reply, c1, ws[1]);
      assert ws[1..][1..] == Samples(pins, out, bits[1..]);
      assert rs[1..][1..] == rs[2..];
      SamplesShift(pins, reply, c2, out, bits[1..], rs[2..]);
      forall j | 0 <= j < |bits| ensures PresentedAt(pins, reply, c, bits, rs, j) {
        if j == 0 {
          assert bits[..0] == [];
        } else {
          assert PresentedAt(pins, reply, c2, bits[1..], rs[2..], j - 1);
          assert bits[1..][..j - 1] == bits[..j][1..];
          assert rs[2..][2 * (j - 1) + 1] == rs[2 * j + 1];
        }
      }
    }
  }

  // ----- whole commands

  lemma {:induction false} PartOfCommand(reply: Reply, c: Chip, bits: seq<bool>)
    requires ValidChip(c) && |c.bits| + |bits| < 32
    ensures ShiftBits(reply, c, bits).bits == c.bits + bits
    ensures ShiftBits(reply, c, bits).log == c.log
    decreases |bits|
  {
    if bits == [] {
      assert c.bits + bits == c.bits;
    } else {
      PartOfCommand(reply, ShiftBit(reply, c, bits[0]), bits[1..]);
      assert c.bits + [bits[0]] + bits[1..] == c.bits + bits;
    }
  }

  lemma WholeCommand(reply: Reply, c: Chip, s: seq<bool>)
    requires c.bits == [] && |s| == 32
    ensures var r := ShiftBits(reply, c, s); r.bits == [] && r.log == c.log + [CommandOf(s)]
  {
    hide CommandOf, Presented;
    var a, b := s[..31], s[31..];
    assert s == a + b;
    PartOfCommand(reply, c, a);
    ShiftBitsAppend(reply, c, a, b);
    var c' := ShiftBits(reply, c, a);
    assert c'.bits == a by { assert c.bits + a == a; }
    assert c'.bits + [b[0]] == s;
    assert b[1..] == [];
    assert ShiftBits(reply, c', b) == ShiftBit(reply, c', b[0]);
  }

  function CommandsBits(cmds: seq<Command>): (s: seq<bool>)
    ensures |s| == 32 * |cmds|
  {
    if cmds == [] then [] else CommandBits(cmds[0]) + CommandsBits(cmds[1..])
  }

  lemma {:induction false} CommandsBitsAppend(a: seq<Command>, b: seq<Command>)
    ensures CommandsBits(a + b) == CommandsBits(a) + CommandsBits(b)
  {
    hide CommandBits;
    if a == [] {
      assert a + b == b;
    } else {
      CommandsBitsAppend(a[1..], b);
      assert (a + b)[1..] == a[1..] + b && (a + b)[0] == a[0];
      var first, rest, last := CommandBits(a[0]), CommandsBits(a[1..]), CommandsBits(b);
      assert CommandsBits(a) == first + rest;
      assert CommandsBits(a + b) == first + CommandsBits(a[1..] + b);
      assert first + (rest + last) == (first + rest) + last;
    }
  }

  /** The device executes exactly the commands that were encoded, in order. */
  lemma {:induction false} CommandsExecuted(reply: Reply, c: Chip, cmds: seq<Command>)
    requires c.bits == []
    ensures var r := ShiftBits(reply, c, CommandsBits(cmds));
      r.bits == [] && r.log == c.log + cmds
    decreases |cmds|
  {
    if cmds != [] {
      WholeCommand(reply, c, CommandBits(cmds[0]));
      CommandRoundTrip(cmds[0]);
      ShiftBitsAppend(reply, c, CommandBits(cmds[0]), CommandsBits(cmds[1..]));
      CommandsExecuted(reply, ShiftBits(reply, c, CommandBits(cmds[0])), cmds[1..]);
    }
  }

  /** Position of the sample that carries bit t of byte number offset of a reply. */
  function ReplySample(offset: nat, t: nat): nat {
    16 * offset + 1 + 2 * t
  }

  /** r is the byte that the samples rs spell at byte position offset. */
  predicate Extracted(pins: Pins, rs: seq<bv8>, offset: nat, r: byte)
    requires 16 * offset + 16 <= |rs|
  {
    forall t | 0 <= t < 8 :: BitOf(r, t) == Level(rs[ReplySample(offset, t)], pins.miso)
  }

  lemma ExtractedIsUnique(pins: Pins, rs: seq<bv8>, offset: nat, a: byte, b: byte)
    requires 16 * offset + 16 <= |rs|
    requires Extracted(pins, rs, offset, a) && Extracted(pins, rs, offset, b)
    ensures a == b
  {
    BitsDetermineByte(a, b);
  }

  lemma CommandBytes(cmd: Command, s: seq<bool>)
    requires 24 <= |s| < 32 && s == CommandBits(cmd)[..|s|]
    ensures FromBits(s[..8]) == cmd.b0 && FromBits(s[8..16]) == cmd.b1 && FromBits(s[16..24]) == cmd.b2
  {
    CommandRoundTrip(cmd);
    var all := CommandBits(cmd);
    assert s[..8] == all[..8] && s[8..16] == all[8..16] && s[16..24] == all[16..24];
  }

  lemma InsideCommand(reply: Reply, c: Chip, cmd: Command, t: nat)
    requires c.bits == [] && t < 8
    ensures var r := ShiftBits(reply, c, CommandBits(cmd)[..24 + t]);
      && r.sck
      && Presented(reply, r.bits) == Some(BitOf(reply(cmd.b0, cmd.b1, cmd.b2), t))
  {
    var s := CommandBits(cmd)[..24 + t];
    PartOfCommand(reply, c, s);
    assert c.bits + s == s;
    CommandBytes(cmd, s);
  }

  lemma CommandsUpTo(cmds: seq<Command>, j: nat, n: nat)
    requires j < |cmds| && n <= 32
    ensures 32 * j + n <= |CommandsBits(cmds)|
    ensures CommandsBits(cmds)[..32 * j + n] == CommandsBits(cmds[..j]) + CommandBits(cmds[j])[..n]
  {
    hide CommandBits;
    var before, rest := cmds[..j], cmds[j + 1..];
    assert cmds == before + ([cmds[j]] + rest);
    CommandsBitsAppend(before, [cmds[j]] + rest);
    assert ([cmds[j]] + rest)[1..] == rest;
    assert CommandsBits([cmds[j]] + rest) == CommandBits(cmds[j]) + CommandsBits(rest);
  }

  lemma InsideCommands(reply: Reply, c: Chip, cmds: seq<Command>, j: nat, t: nat)
    requires c.bits == [] && j < |cmds| && t < 8
    ensures 32 * j + 24 + t <= |CommandsBits(cmds)|
    ensures var r := ShiftBits(reply, c, CommandsBits(cmds)[..32 * j + 24 + t]);
      r.sck && Presented(reply, r.bits) == Some(BitOf(reply(cmds[j].b0, cmds[j].b1, cmds[j].b2), t))
  {
    hide BitOf, CommandBits, FromBits;
    var pre := CommandsBits(cmds[..j]);
    CommandsExecuted(reply, c, cmds[..j]);
    CommandsUpTo(cmds, j, 24 + t);
    ShiftBitsAppend(reply, c, pre, CommandBits(cmds[j])[..24 + t]);
    InsideCommand(reply, ShiftBits(reply, c, pre), cmds[j], t);
  }

  lemma ReplyBit(pins: Pins, reply: Reply, c: Chip, cmds: seq<Command>, rs: seq<bv8>, j: nat, t: nat)
    requires c.bits == [] && j < |cmds| && t < 8 && |rs| == 64 * |cmds|
    requires PresentedAt(pins, reply, c, CommandsBits(cmds), rs, 32 * j + 24 + t)
    ensures Level(rs[ReplySample(4 * j + 3, t)], pins.miso)
         == BitOf(reply(cmds[j].b0, cmds[j].b1, cmds[j].b2), t)
  {
    hide BitOf, Level, FromBits, CommandsBits, ShiftBits, Presented;
    InsideCommands(reply, c, cmds, j, t);
  }

  /** Byte 4j+3 of the returned samples is what the device answered to command j. */
  lemma ReplyRecovered(pins: Pins, reply: Reply, c: Chip, out: bv8, cmds: seq<Command>, rs: seq<bv8>, j: nat)
    requires ValidPins(pins) && c.bits == [] && j < |cmds|
    requires Transcript(pins, reply, c, Samples(pins, out, CommandsBits(cmds)), rs)
    ensures |rs| == 64 * |cmds|
    ensures Extracted(pins, rs, 4 * j + 3, reply(cmds[j].b0, cmds[j].b1, cmds[j].b2))
  {
    hide BitOf, Level, ShiftBits, Presented, Transcript, Samples, CommandsBits;
    SamplesShift(pins, reply, c, out, CommandsBits(cmds), rs);
    forall t | 0 <= t < 8
      ensures BitOf(reply(cmds[j].b0, cmds[j].b1, cmds[j].b2), t)
           == Level(rs[ReplySample(4 * j + 3, t)], pins.miso)
    {
      ReplyBit(pins, reply, c, cmds, rs, j, t);
    }
  }

  // ----- the loops of ft245r.c

  /** The buffer s with t written over it from position pos on. */
  function Overwrite<T>(s: seq<T>, pos: nat, t: seq<T>): (r: seq<T>)
    requires pos + |t| <= |s|
    ensures |r| == |s| && r[pos..pos + |t|] == t && r[..pos] == s[..pos] && r[pos + |t|..] == s[pos + |t|..]
  {
    s[..pos] + t + s[pos + |t|..]
  }

  lemma OverwriteMore<T>(s: seq<T>, pos: nat, t: seq<T>, u: seq<T>)
    requires pos + |t| + |u| <= |s|
    ensures Overwrite(Overwrite(s, pos, t), pos + |t|, u) == Overwrite(s, pos, t + u)
  {
  }

  /** The output byte after the first j bits. */
  predicate AfterBit(pins: Pins, out0: bv8, out: bv8, bits: seq<bool>, j: nat)
    requires j <= |bits|
  {
    out == if j == 0 then out0 else Drive(pins, out0, bits[j - 1], true)
  }

  lemma DriveAfter(pins: Pins, out0: bv8, out: bv8, bits: seq<bool>, j: nat)
    requires ValidPins(pins) && j < |bits| && AfterBit(pins, out0, out, bits, j)
    ensures Drive(pins, out, bits[j], false) == Drive(pins, out0, bits[j], false)
    ensures Drive(pins, out, bits[j], true) == Drive(pins, out0, bits[j], true)
  {
    if j > 0 {
      DriveForgets(pins, out0, bits[j - 1], true, bits[j], false);
      DriveForgets(pins, out0, bits[j - 1], true, bits[j], true);
    }
  }

  lemma BitRead(b: byte, j: nat)
    requires j < 8
    ensures (b & BitMask(j) != 0) == Bits(b)[j]
  {
  }

  lemma AfterNextBit(pins: Pins, out0: bv8, out: bv8, bits: seq<bool>, j: nat)
    requires j < |bits| && out == Drive(pins, out0, bits[j], true)
    ensures AfterBit(pins, out0, out, bits, j + 1)
  {
  }

  lemma SamplesStart(pins: Pins, out: bv8, whole: seq<bv8>, pos: nat, bits: seq<bool>)
    requires pos <= |whole|
    ensures AfterBit(pins, out, out, bits, 0)
    ensures Overwrite(whole, pos, Samples(pins, out, bits[..0])) == whole
  {
    OverwriteNothing(whole, pos);
  }

  lemma SamplesEnd(pins: Pins, out0: bv8, out: bv8, b: byte)
    requires AfterBit(pins, out0, out, Bits(b), 8)
    ensures out == Drive(pins, out0, BitOf(b, 7), true)
    ensures Bits(b)[..8] == Bits(b)
  {
  }

  lemma SamplesGrow(pins: Pins, out: bv8, whole: seq<bv8>, pos: nat, bits: seq<bool>, j: nat)
    requires j < |bits| && pos + 2 * |bits| <= |whole|
    ensures Overwrite(Overwrite(whole, pos, Samples(pins, out, bits[..j])), pos + 2 * j,
                      [Drive(pins, out, bits[j], false), Drive(pins, out, bits[j], true)])
         == Overwrite(whole, pos, Samples(pins, out, bits[..j + 1]))
  {
    SamplesSnoc(pins, out, bits, j);
    OverwriteMore(whole, pos, Samples(pins, out, bits[..j]),
                  [Drive(pins, out, bits[j], false), Drive(pins, out, bits[j], true)]);
  }

  lemma OverwriteNothing<T>(s: seq<T>, pos: nat)
    requires pos <= |s|
    ensures Overwrite(s, pos, []) == s
  {
  }

  lemma MaskSteps(j: nat)
    requires j < 8
    ensures BitMask(0) == 0x80 && BitMask(j) >> 1 == BitMask(j + 1)
  {
  }

  lemma OrSetsOneBit(r: byte, j: nat, t: nat)
    requires j < 8 && t < 8
    ensures BitOf(r | BitMask(j), t) == (t == j || BitOf(r, t))
  {
  }

  /** The output state of the programmer (ft245r_out) and its pin assignment. */
  class Bitbang {
    const pins: Pins
    var out: bv8

    constructor (pins: Pins, out: bv8)
      ensures this.pins == pins && this.out == out
    {
      this.pins, this.out := pins, out;
    }

    /** One turn of the loop of set_data: the data level, then a clock pulse. */
    method SetBit(buf: array<bv8>, k: nat, level: bool)
      requires ValidPins(pins) && k + 2 <= buf.Length
      modifies this, buf
      ensures buf[..] == Overwrite(old(buf[..]), k,
        [Drive(pins, old(out), level, false), Drive(pins, old(out), level, true)])
      ensures out == Drive(pins, old(out), level, true)
    {
      ghost var before, after := buf[..k], buf[k + 2..];
      SetBitsAgain(SetBits(out, pins.mosi, level), pins.sck, false, true);
      out := SetBits(out, pins.mosi, level);
      out := SetBits(out, pins.sck, false);
      buf[k] := out;
      out := SetBits(out, pins.sck, true);
      buf[k + 1] := out;
      assert buf[..] == buf[..k] + [buf[k], buf[k + 1]] + buf[k + 2..];
    }

    /** set_data: the 16 samples of one byte, written at buf[pos]. */
    method SetData(buf: array<bv8>, pos: nat, data: byte) returns (n: nat)
      requires ValidPins(pins) && pos + 16 <= buf.Length
      modifies this, buf
      ensures n == 16
      ensures buf[..] == Overwrite(old(buf[..]), pos, Samples(pins, old(out), Bits(data)))
      ensures out == Drive(pins, old(out), BitOf(data, 7), true)
    {
      hide Drive, Overwrite, Samples, BitMask, Bits, BitOf, AfterBit;
      ghost var bits := Bits(data);
      ghost var whole, out0 := buf[..], out;
      MaskSteps(0);
      SamplesStart(pins, out, whole, pos, bits);
      var bufPos, bit, j := 0, 0x80 as bv8, 0;
      while j < 8
        invariant 0 <= j <= 8 && bufPos == 2 * j && bit == BitMask(j)
        invariant AfterBit(pins, out0, out, bits, j)
        invariant buf[..] == Overwrite(whole, pos, Samples(pins, out0, bits[..j]))
      {
        BitRead(data, j);
        DriveAfter(pins, out0, out, bits, j);
        SetBit(buf, pos + bufPos, data & bit != 0);
        SamplesGrow(pins, out0, whole, pos, bits, j);
        AfterNextBit(pins, out0, out, bits, j);
        MaskSteps(j);
        bufPos, bit, j := bufPos + 2, bit >> 1, j + 1;
      }
      SamplesEnd(pins, out0, out, data);
      n := bufPos;
    }

    /** extract_data: byte number offset out of returned samples. */
    method ExtractData(buf: array<bv8>, offset: nat) returns (r: byte)
      requires 16 * offset + 16 <= buf.Length
      ensures Extracted(pins, buf[..], offset, r)
    {
      r := 0;
      var pos, bit, j := 16 * offset + 1, 0x80 as bv8, 0;
      while j < 8
        invariant 0 <= j <= 8 && pos == ReplySample(offset, j) && bit == BitMask(j)
        invariant forall t | 0 <= t < 8 :: BitOf(r, t) == (t < j && Level(buf[ReplySample(offset, t)], pins.miso))
      {
        forall t | 0 <= t < 8 ensures BitOf(r | BitMask(j), t) == (t == j || BitOf(r, t)) {
          OrSetsOneBit(r, j, t);
        }
        if GetBits(buf[pos], pins.miso) != 0 {
          r := r | bit;
        }
        MaskSteps(j);
        pos, bit, j := pos + 2, bit >> 1, j + 1;
      }
    }
  }
}
