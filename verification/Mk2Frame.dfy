/** Frames of the JTAG ICE mkII protocol (Atmel application note AVR067): start
    byte, sequence number, payload size, token, payload, CRC. */
module Mk2Frame {
  import opened Crc16
  import opened ByteBits

  const MESSAGE_START: byte := 0x1b
  const TOKEN: byte := 0x0e
  const MAX_MESSAGE: nat := 100000
  const HEADER: nat := 8

  // ----- little-endian numbers

  /** u16_to_b2. */
  function B2(x: nat): (s: seq<byte>)
    requires x < 0x10000
    ensures |s| == 2
  {
    [(x % 256) as bv8, (x / 256) as bv8]
  }

  /** u32_to_b4. */
  function B4(x: nat): (s: seq<byte>)
    requires x < 0x1_0000_0000
    ensures |s| == 4
  {
    [(x % 256) as bv8, (x / 256 % 256) as bv8, (x / 0x1_0000 % 256) as bv8, (x / 0x100_0000) as bv8]
  }

  /** b2_to_u16. */
  function U16(b0: byte, b1: byte): nat {
    Num(b0) + 256 * Num(b1)
  }

  /** b4_to_u32. */
  function U32(b0: byte, b1: byte, b2: byte, b3: byte): nat {
    Num(b0) + 256 * Num(b1) + 0x1_0000 * Num(b2) + 0x100_0000 * Num(b3)
  }

  lemma U16OfB2(x: nat)
    requires x < 0x10000
    ensures U16(B2(x)[0], B2(x)[1]) == x
  {
    hide Num;
    NumOfByte(x % 256);
    NumOfByte(x / 256);
  }

  lemma U32OfB4(x: nat)
    requires x < 0x1_0000_0000
    ensures U32(B4(x)[0], B4(x)[1], B4(x)[2], B4(x)[3]) == x
  {
    hide Num;
    NumOfByte(x % 256);
    NumOfByte(x / 256 % 256);
    NumOfByte(x / 0x1_0000 % 256);
    NumOfByte(x / 0x100_0000);
    Digits(x);
  }

  lemma Digits(x: nat)
    ensures x % 256 + 256 * (x / 256 % 256) + 0x1_0000 * (x / 0x1_0000 % 256) + 0x100_0000 * (x / 0x100_0000) == x
  {
    assert x / 0x1_0000 == x / 256 / 256 && x / 0x100_0000 == x / 256 / 256 / 256;
  }

  // ----- frames

  function Header(seqno: nat, size: nat): (s: seq<byte>)
    requires seqno < 0x10000 && size < 0x1_0000_0000
    ensures |s| == HEADER
  {
    [MESSAGE_START] + B2(seqno) + B4(size) + [TOKEN]
  }

  function FrameBytes(seqno: nat, payload: seq<byte>): seq<byte>
    requires seqno < 0x10000 && |payload| < 0x1_0000_0000
  {
    WithCrc(Header(seqno, |payload|) + payload)
  }

  datatype Received =
    | Frame(payload: seq<byte>, seqno: nat, rest: seq<byte>)
    | Timeout
    | BadChecksum(rest: seq<byte>)

  /** What a byte stream holds, block by block.  Input is skipped up to a start byte;
      eight header bytes follow, and a header without its token, or with too large a
      size, is dropped as a whole.  A stream that ends too early is a timeout. */
  function Scan(s: seq<byte>): Received {
    if s == [] then Timeout
    else if s[0] != MESSAGE_START then Scan(s[1..])
    else if |s| < HEADER then Timeout
    else if s[7] != TOKEN then Scan(s[HEADER..])
    else
      var n := U32(s[3], s[4], s[5], s[6]);
      if n > MAX_MESSAGE then Scan(s[HEADER..])
      else if |s| < n + 10 then Timeout
      else if CrcGood(s[..n + 10]) then Frame(s[HEADER..n + HEADER], U16(s[1], s[2]), s[n + 10..])
      else BadChecksum(s[n + 10..])
  }

  /** The header at the start of h is dropped: no token, or too large a size. */
  predicate Dropped(h: seq<byte>)
    requires |h| >= HEADER
  {
    h[7] != TOKEN || U32(h[3], h[4], h[5], h[6]) > MAX_MESSAGE
  }

  /** A header is dropped, and scanning goes on right behind it, exactly if its eighth byte is not 0x0e or
      the size it names is above 100000. */
  lemma HeaderIsDropped(s: seq<byte>)
    requires |s| >= 8 && s[0] == 0x1b
    ensures Dropped(s) <==>
      s[7] != 0x0e || Num(s[3]) + 0x100 * Num(s[4]) + 0x1_0000 * Num(s[5]) + 0x100_0000 * Num(s[6]) > 100000
    ensures Dropped(s) ==> Scan(s) == Scan(s[8..])
  {
    hide Num, CrcGood;
  }

  /** Bytes between which no header is accepted or left incomplete. */
  predicate Clean(g: seq<byte>) {
    g == [] ||
    if g[0] != MESSAGE_START then Clean(g[1..])
    else |g| >= HEADER && Dropped(g) && Clean(g[HEADER..])
  }

  lemma {:induction false} NoStartIsClean(garbage: seq<byte>)
    requires MESSAGE_START !in garbage
    ensures Clean(garbage)
    decreases |garbage|
  {
    if garbage != [] {
      assert garbage[0] in garbage;
      NoStartIsClean(garbage[1..]);
    }
  }

  lemma {:induction false} SkipClean(garbage: seq<byte>, s: seq<byte>)
    requires Clean(garbage)
    ensures Scan(garbage + s) == Scan(s)
    decreases |garbage|
  {
    hide U32, CrcGood;
    if garbage == [] {
      assert garbage + s == s;
    } else {
      var k := if garbage[0] != MESSAGE_START then 1 else HEADER;
      assert (garbage + s)[k..] == garbage[k..] + s;
      SkipClean(garbage[k..], s);
    }
  }

  lemma SkipGarbage(garbage: seq<byte>, s: seq<byte>)
    requires MESSAGE_START !in garbage
    ensures Scan(garbage + s) == Scan(s)
  {
    NoStartIsClean(garbage);
    SkipClean(garbage, s);
  }

  /** A frame found takes its length plus ten bytes of the stream. */
  lemma {:induction false} FrameNeeds(s: seq<byte>)
    ensures var r := Scan(s); r.Frame? ==> |r.payload| + 10 + |r.rest| <= |s|
    decreases |s|
  {
    hide U32, CrcGood;
    if s != [] {
      if s[0] != MESSAGE_START {
        FrameNeeds(s[1..]);
      } else if |s| >= HEADER {
        FrameNeeds(s[HEADER..]);
      }
    }
  }

  /** What an accepted header makes of the stream takes it up to the end of that frame. */
  lemma AcceptedTakes(s: seq<byte>)
    requires |s| >= HEADER && s[0] == MESSAGE_START && !Dropped(s)
    ensures var r := Scan(s); r.Frame? ==> |r.payload| + 10 + |r.rest| == |s|
  {
    hide U32, CrcGood;
  }

  lemma DroppedGoesOn(s: seq<byte>)
    requires |s| >= HEADER && s[0] == MESSAGE_START && Dropped(s)
    ensures Scan(s) == Scan(s[HEADER..])
  {
    hide U32, CrcGood;
  }

  /** Behind garbage that is not clean no frame comes out as it was sent. */
  lemma {:induction false} DirtyLoses(garbage: seq<byte>, seqno: nat, payload: seq<byte>, f: seq<byte>, rest: seq<byte>)
    requires !Clean(garbage) && |f| == |payload| + 10
    ensures Scan(garbage + (f + rest)) != Frame(payload, seqno, rest)
    decreases |garbage|
  {
    hide Scan, Dropped;
    var t := f + rest;
    var s := garbage + t;
    if garbage[0] != MESSAGE_START {
      SkipOne(s);
      assert s[1..] == garbage[1..] + t;
      DirtyLoses(garbage[1..], seqno, payload, f, rest);
    } else if !Dropped(s) {
      AcceptedTakes(s);
    } else {
      DroppedGoesOn(s);
      if |garbage| < HEADER {
        FrameNeeds(s[HEADER..]);
      } else {
        SameHeader(garbage, s);
        assert s[HEADER..] == garbage[HEADER..] + t;
        DirtyLoses(garbage[HEADER..], seqno, payload, f, rest);
      }
    }
  }

  lemma SkipOne(s: seq<byte>)
    requires s != [] && s[0] != MESSAGE_START
    ensures Scan(s) == Scan(s[1..])
  {
  }

  lemma SameHeader(g: seq<byte>, s: seq<byte>)
    requires |g| >= HEADER && g <= s
    ensures Dropped(g) <==> Dropped(s)
  {
  }

  lemma FrameLayout(seqno: nat, payload: seq<byte>)
    requires seqno < 0x10000 && |payload| <= MAX_MESSAGE
    ensures var f := FrameBytes(seqno, payload);
      && |f| == |payload| + 10
      && f[0] == MESSAGE_START && f[7] == TOKEN
      && U16(f[1], f[2]) == seqno && U32(f[3], f[4], f[5], f[6]) == |payload|
      && f[HEADER..|payload| + HEADER] == payload
  {
    hide U16, U32, B2, B4, Low, High, Crc;
    U16OfB2(seqno);
    U32OfB4(|payload|);
    var f, b2, b4 := FrameBytes(seqno, payload), B2(seqno), B4(|payload|);
    assert f[1] == b2[0] && f[2] == b2[1];
    assert f[3] == b4[0] && f[4] == b4[1] && f[5] == b4[2] && f[6] == b4[3];
  }

  /** A frame as it goes over the wire: 0x1b, the number and the size with their low bytes first, 0x0e,
      the payload, and the CRC of all that, started at 0xffff. */
  lemma WireFormat(seqno: nat, payload: seq<byte>)
    requires seqno < 0x10000 && |payload| <= MAX_MESSAGE
    ensures var f, n := FrameBytes(seqno, payload), |payload|;
      && |f| == n + 10
      && f[0] == 0x1b && Num(f[1]) + 0x100 * Num(f[2]) == seqno
      && Num(f[3]) + 0x100 * Num(f[4]) + 0x1_0000 * Num(f[5]) + 0x100_0000 * Num(f[6]) == n
      && f[7] == 0x0e && f[8..n + 8] == payload
      && (f[n + 9] as bv16 << 8) | f[n + 8] as bv16 == SerialCrc(f[..n + 8], 0xffff)
  {
    FrameLayout(seqno, payload);
    FieldIsSerial(Header(seqno, |payload|) + payload);
    hide Num, SerialCrc, WithCrc, Header;
  }

  lemma FrameAlone(seqno: nat, payload: seq<byte>, rest: seq<byte>)
    requires seqno < 0x10000 && |payload| <= MAX_MESSAGE
    ensures Scan(FrameBytes(seqno, payload) + rest) == Frame(payload, seqno, rest)
  {
    var f, n := FrameBytes(seqno, payload), |payload|;
    FrameLayout(seqno, payload);
    AppendedIsGood(Header(seqno, n) + payload);
    hide FrameBytes, U16, U32, CrcGood;
    var s := f + rest;
    assert s[..n + 10] == f && s[n + 10..] == rest;
    assert s[HEADER..n + HEADER] == f[HEADER..n + HEADER];
  }

  /** A frame built by send is recovered behind garbage if and only if the garbage is clean,
      whatever its payload and number and whatever follows. */
  lemma ResyncExactly(garbage: seq<byte>, seqno: nat, payload: seq<byte>, rest: seq<byte>)
    requires seqno < 0x10000 && |payload| <= MAX_MESSAGE
    ensures Scan(garbage + FrameBytes(seqno, payload) + rest) == Frame(payload, seqno, rest) <==> Clean(garbage)
  {
    var f := FrameBytes(seqno, payload);
    FrameLayout(seqno, payload);
    hide FrameBytes, Scan, Clean;
    assert garbage + f + rest == garbage + (f + rest);
    if Clean(garbage) {
      SkipClean(garbage, f + rest);
      FrameAlone(seqno, payload, rest);
    } else {
      DirtyLoses(garbage, seqno, payload, f, rest);
    }
  }

  /** A frame built by send is recovered, with its number, after any garbage without a
      start byte; the payload may hold start and token bytes. */
  lemma FrameRoundTrip(garbage: seq<byte>, seqno: nat, payload: seq<byte>, rest: seq<byte>)
    requires MESSAGE_START !in garbage && seqno < 0x10000 && |payload| <= MAX_MESSAGE
    ensures Scan(garbage + FrameBytes(seqno, payload) + rest) == Frame(payload, seqno, rest)
  {
    NoStartIsClean(garbage);
    ResyncExactly(garbage, seqno, payload, rest);
  }

  /** One stray start byte before a frame loses the frame: its header is read one byte
      too early, and scanning goes on in the payload. */
  lemma StrayStartLosesFrame(seqno: nat, payload: seq<byte>, rest: seq<byte>)
    requires seqno < 0x10000 && |payload| <= MAX_MESSAGE
    ensures Scan([MESSAGE_START] + FrameBytes(seqno, payload) + rest)
         == Scan(FrameBytes(seqno, payload)[HEADER..] + rest)
    ensures Scan([MESSAGE_START] + FrameBytes(seqno, payload) + rest) != Frame(payload, seqno, rest)
  {
    ResyncExactly([MESSAGE_START], seqno, payload, rest);
    FrameLayout(seqno, payload);
    TopByte(seqno, payload);
    hide FrameBytes, Scan, U16, U32;
    ReadTooEarly(FrameBytes(seqno, payload), rest);
  }

  lemma ReadTooEarly(f: seq<byte>, rest: seq<byte>)
    requires |f| >= HEADER && f[6] != TOKEN && f[7] == TOKEN
    ensures Scan([MESSAGE_START] + f + rest) == Scan(f[HEADER..] + rest)
  {
    hide Scan, U32;
    var s, t := [MESSAGE_START] + f + rest, [TOKEN] + (f[HEADER..] + rest);
    assert s[7] == f[6];
    DroppedGoesOn(s);
    assert s[HEADER..] == t;
    SkipOne(t);
    assert t[1..] == f[HEADER..] + rest;
  }

  /** The top byte of the size of a message is 0. */
  lemma TopByte(seqno: nat, payload: seq<byte>)
    requires seqno < 0x10000 && |payload| <= MAX_MESSAGE
    ensures var f := FrameBytes(seqno, payload); |f| >= HEADER && f[6] != TOKEN
  {
    hide Low, High, Crc, B2;
    var f, b4 := FrameBytes(seqno, payload), B4(|payload|);
    assert f[6] == b4[3];
    assert |payload| / 0x100_0000 == 0;
  }
}
