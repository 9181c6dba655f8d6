/** The byte-driven receiver of jtagmkII.c, and the protocol above it that matches
    replies to commands by sequence number. */
module Mk2Receive {
  import opened Crc16
  import opened Mk2Frame
  import opened ByteBits

  /** The states of jtagmkII_recv_frame, in the order the code relies on. */
  datatype State = Start | SeqNum1 | SeqNum2 | Size1 | Size2 | Size3 | Size4 | Token | Data | Csum1 | Csum2 | Done

  function Ordinal(state: State): nat {
    match state
    case Start => 0 case SeqNum1 => 1 case SeqNum2 => 2
    case Size1 => 3 case Size2 => 4 case Size3 => 5 case Size4 => 6
    case Token => 7 case Data => 8 case Csum1 => 9 case Csum2 => 10 case Done => 11
  }

  function Next(state: State): State
    requires state != Done
  {
    match state
    case Start => SeqNum1 case SeqNum1 => SeqNum2 case SeqNum2 => Size1
    case Size1 => Size2 case Size2 => Size3 case Size3 => Size4 case Size4 => Token
    case Token => Data case Data => Csum1 case Csum1 => Csum2 case Csum2 => Done
  }

  /** The serial port: what will still arrive, and what was sent. */
  class Port {
    var incoming: seq<byte>
    var outgoing: seq<byte>

    constructor (incoming: seq<byte>)
      ensures this.incoming == incoming && outgoing == []
    {
      this.incoming, outgoing := incoming, [];
    }

    /** serial_recv of n bytes into buf[at..]; fewer bytes than that mean a timeout. */
    method Recv(buf: array<byte>, at: nat, n: nat) returns (ok: bool)
      requires at + n <= buf.Length
      modifies this`incoming, buf
      ensures ok <==> n <= |old(incoming)|
      ensures ok ==> incoming == old(incoming)[n..]
      ensures ok ==> buf[..] == old(buf[..at]) + old(incoming)[..n] + old(buf[at + n..])
      ensures !ok ==> incoming == [] && buf[..] == old(buf[..])
    {
      ok := n <= |incoming|;
      if !ok {
        incoming := [];
        return;
      }
      var i := 0;
      while i < n
        invariant 0 <= i <= n && incoming == old(incoming)[i..]
        invariant buf[..at + i] == old(buf[..at]) + old(incoming)[..i]
        invariant buf[at + i..] == old(buf[at + i..])
      {
        buf[at + i] := incoming[0];
        incoming := incoming[1..];
        i := i + 1;
      }
      assert buf[..] == buf[..at + n] + buf[at + n..];
    }

    method Send(buf: array<byte>)
      modifies this`outgoing
      ensures outgoing == old(outgoing) + buf[..]
    {
      outgoing := outgoing + buf[..];
    }
  }

  /** The header fields collected so far: nothing of an earlier, abandoned header is
      left in the digits that count. */
  ghost predicate FieldsRead(state: State, h: seq<byte>, seqno: nat, msglen: nat)
    requires |h| == HEADER
  {
    && seqno < 0x10000 && msglen < 0x1_0000_0000
    && (state == SeqNum2 ==> seqno / 256 == Num(h[1]))
    && (Ordinal(state) >= 3 ==> seqno == U16(h[1], h[2]))
    && (state == Size2 ==> msglen / 0x100_0000 == Num(h[3]))
    && (state == Size3 ==> msglen / 0x1_0000 == U16(h[3], h[4]))
    && (state == Size4 ==> msglen / 256 == U16(h[3], h[4]) + 0x1_0000 * Num(h[5]))
    && (Ordinal(state) >= 7 ==> msglen == U32(h[3], h[4], h[5], h[6]))
  }

  /** r_seqno >>= 8; r_seqno |= c << 8 */
  function ShiftInSeqno(seqno: nat, c: byte): nat {
    seqno / 256 + Num(c) * 256
  }

  /** msglen >>= 8; msglen |= c << 24 */
  function ShiftInSize(msglen: nat, c: byte): nat {
    msglen / 256 + Num(c) * 0x100_0000
  }

  lemma SeqnoShifted(state: State, h: seq<byte>, h': seq<byte>, seqno: nat, msglen: nat, c: byte)
    requires state == SeqNum1 || state == SeqNum2
    requires |h| == |h'| == HEADER && h' == h[Ordinal(state) := c]
    requires FieldsRead(state, h, seqno, msglen)
    ensures FieldsRead(Next(state), h', ShiftInSeqno(seqno, c), msglen)
  {
  }

  lemma SizeShifted(state: State, h: seq<byte>, h': seq<byte>, seqno: nat, msglen: nat, c: byte)
    requires |h| == |h'| == HEADER && 3 <= Ordinal(state) <= 6 && h' == h[Ordinal(state) := c]
    requires FieldsRead(state, h, seqno, msglen)
    ensures FieldsRead(Next(state), h', seqno, ShiftInSize(msglen, c))
  {
    hide Num;
    var m := Num(c);
    assert (msglen / 256 + m * 0x100_0000) / 0x100_0000 == m;
    assert (msglen / 256 + m * 0x100_0000) / 0x1_0000 == msglen / 0x100_0000 + m * 256;
    assert (msglen / 256 + m * 0x100_0000) / 256 == msglen / 0x1_0000 + m * 0x1_0000;
  }

  // ----- Scan, seen from the middle of a frame

  lemma ScanShortHeader(h: seq<byte>)
    requires |h| < HEADER && (h != [] ==> h[0] == MESSAGE_START)
    ensures Scan(h) == Timeout
  {
  }

  lemma ScanSkips(c: byte, rest: seq<byte>)
    requires c != MESSAGE_START
    ensures Scan([c] + rest) == Scan(rest)
  {
    assert ([c] + rest)[1..] == rest;
  }

  predicate GoodHeader(h: seq<byte>)
    requires |h| >= HEADER
  {
    h[0] == MESSAGE_START && h[7] == TOKEN && U32(h[3], h[4], h[5], h[6]) <= MAX_MESSAGE
  }

  lemma ScanBadHeader(h: seq<byte>, rest: seq<byte>)
    requires |h| == HEADER && h[0] == MESSAGE_START && !GoodHeader(h)
    ensures Scan(h + rest) == Scan(rest)
  {
    hide U32;
    assert (h + rest)[HEADER..] == rest;
  }

  lemma ScanShortBody(s: seq<byte>)
    requires |s| >= HEADER && GoodHeader(s) && |s| < U32(s[3], s[4], s[5], s[6]) + 10
    ensures Scan(s) == Timeout
  {
    hide U32;
  }

  lemma ScanWhole(s: seq<byte>, rest: seq<byte>)
    requires |s| >= HEADER && GoodHeader(s) && |s| == U32(s[3], s[4], s[5], s[6]) + 10
    ensures Scan(s + rest) == if CrcGood(s) then Frame(s[HEADER..|s| - 2], U16(s[1], s[2]), rest) else BadChecksum(rest)
  {
    hide U32, U16, CrcGood;
    assert (s + rest)[..|s|] == s && (s + rest)[|s|..] == rest;
    assert (s + rest)[HEADER..|s| - 2] == s[HEADER..|s| - 2];
  }

  // ----- the receiver

  /** Between two header bytes: the index is the ordinal of the state, and what is in
      the header and still to come is what Scan would find from the beginning. */
  ghost predicate InHeader(s0: seq<byte>, state: State, headeridx: int, h: seq<byte>, seqno: nat, msglen: nat, incoming: seq<byte>)
    requires |h| == HEADER
  {
    && Ordinal(state) <= 7 && headeridx == Ordinal(state)
    && (headeridx > 0 ==> h[0] == MESSAGE_START)
    && FieldsRead(state, h, seqno, msglen)
    && Scan(s0) == Scan(h[..headeridx] + incoming)
  }

  /** How much of the frame is in the buffer in the later states. */
  function Filled(state: State, msglen: nat): nat {
    if state == Data then HEADER else if state == Csum1 then msglen + 8 else msglen + 9
  }

  /** After the header: the buffer holds the frame as far as it was read. */
  ghost predicate InBody(s0: seq<byte>, state: State, headeridx: int, buf: seq<byte>, seqno: nat, msglen: nat, incoming: seq<byte>) {
    && (state == Data || state == Csum1 || state == Csum2) && headeridx == HEADER
    && |buf| == msglen + 10
    && GoodHeader(buf) && msglen == U32(buf[3], buf[4], buf[5], buf[6]) && seqno == U16(buf[1], buf[2])
    && Scan(s0) == Scan(buf[..Filled(state, msglen)] + incoming)
  }

  /** The switch of jtagmkII_recv_frame for the states up to sTOKEN. */
  method HeaderByte(c: byte, state: State, headeridx: int, header: array<byte>, rSeqno: nat, msglen: nat, buf: array<byte>,
                    ghost s0: seq<byte>, ghost incoming: seq<byte>)
    returns (state': State, headeridx': int, rSeqno': nat, msglen': nat, buf': array<byte>)
    requires header.Length == HEADER && buf != header
    requires InHeader(s0, state, headeridx, header[..], rSeqno, msglen, [c] + incoming)
    modifies header
    ensures Ordinal(state') <= 8 && buf' != header
    ensures state' != Data ==> InHeader(s0, state', headeridx', header[..], rSeqno', msglen', incoming)
    ensures state' == Data ==> fresh(buf') && InBody(s0, state', headeridx', buf'[..], rSeqno', msglen', incoming)
    ensures state' != Data ==> buf' == buf || fresh(buf')
  {
    hide InHeader, InBody, GoodHeader, ShiftInSeqno, ShiftInSize;
    ghost var h0 := header[..];
    IndexIsOrdinal(s0, state, headeridx, h0, rSeqno, msglen, [c] + incoming);
    state', headeridx', rSeqno', msglen', buf' := state, headeridx, rSeqno, msglen, buf;
    header[headeridx] := c;
    assert header[..] == h0[headeridx := c];
    headeridx' := headeridx + 1;
    if state == Start {
      StartByte(s0, headeridx, h0, rSeqno, msglen, c, incoming);
      if c == MESSAGE_START {
        state' := SeqNum1;
      } else {
        headeridx' := 0;
      }
    } else if state == Token {
      TokenByte(s0, headeridx, h0, rSeqno, msglen, c, incoming);
      if c == TOKEN && msglen <= MAX_MESSAGE {
        state' := Data;
        buf' := new byte[msglen + 10];
        forall i | 0 <= i < HEADER {
          buf'[i] := header[i];
        }
        assert header[..] == h0[headeridx := c] && buf'[..HEADER] == header[..];
        BodyStarts(s0, headeridx', header[..], buf'[..], rSeqno, msglen, incoming);
      } else {
        state', headeridx' := Start, 0;
      }
    } else {
      FieldByte(s0, state, headeridx, h0, rSeqno, msglen, c, incoming);
      if Ordinal(state) <= 2 {
        rSeqno' := ShiftInSeqno(rSeqno, c);
      } else {
        msglen' := ShiftInSize(msglen, c);
      }
      state' := Next(state);
    }
  }

  lemma IndexIsOrdinal(s0: seq<byte>, state: State, headeridx: int, h: seq<byte>, seqno: nat, msglen: nat, incoming: seq<byte>)
    requires |h| == HEADER && InHeader(s0, state, headeridx, h, seqno, msglen, incoming)
    ensures headeridx == Ordinal(state) <= 7
  {
  }

  lemma StartByte(s0: seq<byte>, headeridx: int, h: seq<byte>, seqno: nat, msglen: nat, c: byte, incoming: seq<byte>)
    requires |h| == HEADER && InHeader(s0, Start, headeridx, h, seqno, msglen, [c] + incoming)
    ensures InHeader(s0, if c == MESSAGE_START then SeqNum1 else Start, if c == MESSAGE_START then 1 else 0,
                     h[0 := c], seqno, msglen, incoming)
  {
    hide Scan;
    var h' := h[0 := c];
    assert h[..0] + ([c] + incoming) == h'[..1] + incoming;
    if c != MESSAGE_START {
      ScanSkips(c, incoming);
      assert h'[..1] + incoming == [c] + incoming;
      assert h'[..0] + incoming == incoming;
    }
  }

  lemma FieldByte(s0: seq<byte>, state: State, headeridx: int, h: seq<byte>, seqno: nat, msglen: nat, c: byte, incoming: seq<byte>)
    requires |h| == HEADER && 1 <= Ordinal(state) <= 6
    requires InHeader(s0, state, headeridx, h, seqno, msglen, [c] + incoming)
    ensures Ordinal(state) <= 2 ==>
      InHeader(s0, Next(state), headeridx + 1, h[headeridx := c], ShiftInSeqno(seqno, c), msglen, incoming)
    ensures Ordinal(state) > 2 ==>
      InHeader(s0, Next(state), headeridx + 1, h[headeridx := c], seqno, ShiftInSize(msglen, c), incoming)
  {
    hide Scan, FieldsRead, ShiftInSeqno, ShiftInSize;
    var h' := h[headeridx := c];
    assert h[..headeridx] + ([c] + incoming) == h'[..headeridx + 1] + incoming;
    if Ordinal(state) <= 2 {
      SeqnoShifted(state, h, h', seqno, msglen, c);
    } else {
      SizeShifted(state, h, h', seqno, msglen, c);
    }
  }

  lemma TokenByte(s0: seq<byte>, headeridx: int, h: seq<byte>, seqno: nat, msglen: nat, c: byte, incoming: seq<byte>)
    requires |h| == HEADER && InHeader(s0, Token, headeridx, h, seqno, msglen, [c] + incoming)
    ensures var h' := h[headeridx := c];
      if c == TOKEN && msglen <= MAX_MESSAGE
      then GoodHeader(h') && msglen == U32(h'[3], h'[4], h'[5], h'[6]) && seqno == U16(h'[1], h'[2])
        && Scan(s0) == Scan(h' + incoming)
      else InHeader(s0, Start, 0, h', seqno, msglen, incoming)
  {
    hide Scan, U32, U16, Num;
    var h' := h[headeridx := c];
    assert h[..headeridx] + ([c] + incoming) == h' + incoming;
    if !(c == TOKEN && msglen <= MAX_MESSAGE) {
      ScanBadHeader(h', incoming);
      assert h'[..0] + incoming == incoming;
    }
  }

  lemma BodyStarts(s0: seq<byte>, headeridx: int, h: seq<byte>, buf: seq<byte>, seqno: nat, msglen: nat, incoming: seq<byte>)
    requires |h| == HEADER == headeridx && |buf| == msglen + 10 && buf[..HEADER] == h
    requires GoodHeader(h) && msglen == U32(h[3], h[4], h[5], h[6]) && seqno == U16(h[1], h[2])
    requires Scan(s0) == Scan(h + incoming)
    ensures InBody(s0, Data, headeridx, buf, seqno, msglen, incoming)
  {
    hide Scan, U32, U16;
    assert forall i | 0 <= i < HEADER :: buf[i] == buf[..HEADER][i];
  }

  /** jtagmkII_recv_frame: the byte-driven machine recovers what Scan finds. */
  method RecvFrame(port: Port) returns (rc: int, msg: seq<byte>, seqno: nat)
    modifies port`incoming
    ensures match Scan(old(port.incoming))
      case Frame(p, q, rest) => rc == |p| && msg == p && seqno == q && port.incoming == rest
      case Timeout => rc == -1 && port.incoming == []
      case BadChecksum(rest) => rc == -4 && port.incoming == rest
  {
    hide CrcGood, U16, U32, Num, Scan, FieldsRead, GoodHeader, InHeader, InBody;
    ghost var s0 := port.incoming;
    var state, headeridx := Start, 0;
    var rSeqno: nat, msglen: nat, l: nat := 0, 0, 0;
    var header := new byte[HEADER];
    var buf := new byte[0];
    var c := new byte[1];
    NothingRead(header[..], port.incoming);
    while state != Done
      invariant fresh(header) && fresh(buf) && fresh(c) && header != c && buf != c && buf != header
      invariant header.Length == HEADER && c.Length == 1
      invariant Ordinal(state) <= 7 ==> InHeader(s0, state, headeridx, header[..], rSeqno, msglen, port.incoming)
      invariant 8 <= Ordinal(state) <= 10 ==> InBody(s0, state, headeridx, buf[..], rSeqno, msglen, port.incoming)
      invariant state == Csum1 || state == Csum2 ==> l == Filled(state, msglen)
      invariant state == Done ==> buf.Length == msglen + 10
      invariant state == Done ==> Scan(s0) == Frame(buf[HEADER..msglen + HEADER], rSeqno, port.incoming)
      decreases |port.incoming|, 11 - Ordinal(state)
    {
      if Ordinal(state) <= 7 {
        ghost var incoming := port.incoming;
        var ok := port.Recv(c, 0, 1);
        if !ok {
          ShortHeader(s0, state, headeridx, header[..], rSeqno, msglen, incoming);
          return -1, [], 0;
        }
        assert incoming == [c[0]] + port.incoming;
        state, headeridx, rSeqno, msglen, buf :=
          HeaderByte(c[0], state, headeridx, header, rSeqno, msglen, buf, s0, port.incoming);
      } else {
        BodyFacts(s0, state, headeridx, buf[..], rSeqno, msglen, port.incoming);
        rc, state, l := BodyByte(port, c, state, headeridx, buf, rSeqno, msglen, l, s0);
        if rc < 0 {
          return rc, [], 0;
        }
      }
    }
    seqno, msg, rc := rSeqno, buf[HEADER..msglen + HEADER], msglen;
  }

  /** The states from sDATA on: the payload in one piece, then the two CRC bytes. */
  method BodyByte(port: Port, c: array<byte>, state: State, headeridx: int, buf: array<byte>, rSeqno: nat, msglen: nat,
                  l: nat, ghost s0: seq<byte>)
    returns (rc: int, state': State, l': nat)
    requires c.Length == 1 && buf != c && buf.Length == msglen + 10
    requires state == Data || state == Csum1 || state == Csum2
    requires InBody(s0, state, headeridx, buf[..], rSeqno, msglen, port.incoming)
    requires state != Data ==> l == Filled(state, msglen)
    modifies port`incoming, buf, c
    ensures rc == -1 ==> Scan(s0) == Timeout && port.incoming == []
    ensures rc == -4 ==> Scan(s0) == BadChecksum(port.incoming)
    ensures rc == 0 || rc == -1 || rc == -4
    ensures rc == 0 ==> |port.incoming| <= |old(port.incoming)| && state' == Next(state)
    ensures rc == 0 && state' != Done ==>
      l' == Filled(state', msglen) && InBody(s0, state', headeridx, buf[..], rSeqno, msglen, port.incoming)
    ensures rc == 0 && state' == Done ==> Scan(s0) == Frame(buf[HEADER..msglen + HEADER], rSeqno, port.incoming)
  {
    hide CrcGood, U16, U32, Num, Scan, GoodHeader, InBody;
    ghost var incoming, b0 := port.incoming, buf[..];
    rc, state', l' := 0, Next(state), l;
    if state == Data {
      var ok := port.Recv(buf, HEADER, msglen);
      if !ok {
        ShortBody(s0, state, headeridx, b0, rSeqno, msglen, incoming);
        rc := -1;
      } else {
        DataRead(s0, headeridx, b0, buf[..], rSeqno, msglen, incoming);
        l' := msglen + 8;
      }
    } else {
      var ok := port.Recv(c, 0, 1);
      if !ok {
        ShortBody(s0, state, headeridx, b0, rSeqno, msglen, incoming);
        return -1, state, l;
      }
      assert incoming == [c[0]] + port.incoming;
      assert buf[..] == b0;
      buf[l] := c[0];
      assert buf[..] == b0[l := c[0]];
      SumByteRead(s0, state, headeridx, b0, buf[..], rSeqno, msglen, c[0], port.incoming);
      l' := l + 1;
      if state == Csum2 {
        var good := CrcVerify(buf, msglen + 10);
        assert buf[..msglen + 10] == buf[..];
        WholeFrame(s0, buf[..], rSeqno, msglen, port.incoming);
        if !good {
          rc := -4;
        }
      }
    }
  }

  lemma BodyFacts(s0: seq<byte>, state: State, headeridx: int, buf: seq<byte>, seqno: nat, msglen: nat, incoming: seq<byte>)
    requires InBody(s0, state, headeridx, buf, seqno, msglen, incoming)
    ensures |buf| == msglen + 10 && (state == Data || state == Csum1 || state == Csum2)
  {
  }

  lemma NothingRead(h: seq<byte>, s: seq<byte>)
    requires |h| == HEADER
    ensures InHeader(s, Start, 0, h, 0, 0, s)
  {
    assert h[..0] + s == s;
  }

  lemma ShortHeader(s0: seq<byte>, state: State, headeridx: int, h: seq<byte>, seqno: nat, msglen: nat, incoming: seq<byte>)
    requires |h| == HEADER && InHeader(s0, state, headeridx, h, seqno, msglen, incoming) && incoming == []
    ensures Scan(s0) == Timeout
  {
    hide FieldsRead;
    assert h[..headeridx] + [] == h[..headeridx];
    ScanShortHeader(h[..headeridx]);
  }

  lemma ShortBody(s0: seq<byte>, state: State, headeridx: int, buf: seq<byte>, seqno: nat, msglen: nat, incoming: seq<byte>)
    requires InBody(s0, state, headeridx, buf, seqno, msglen, incoming)
    requires |incoming| < if state == Data then msglen else 1
    ensures Scan(s0) == Timeout
  {
    hide U32, U16;
    ScanShortBody(buf[..Filled(state, msglen)] + incoming);
  }

  lemma DataRead(s0: seq<byte>, headeridx: int, b0: seq<byte>, b1: seq<byte>, seqno: nat, msglen: nat, incoming: seq<byte>)
    requires InBody(s0, Data, headeridx, b0, seqno, msglen, incoming) && msglen <= |incoming|
    requires b1 == b0[..HEADER] + incoming[..msglen] + b0[HEADER + msglen..]
    ensures InBody(s0, Csum1, headeridx, b1, seqno, msglen, incoming[msglen..])
  {
    hide U32, U16, Scan;
    assert b0[..HEADER] + incoming == b1[..msglen + 8] + incoming[msglen..];
    assert b1[..HEADER] == b0[..HEADER];
  }

  lemma SumByteRead(s0: seq<byte>, state: State, headeridx: int, b0: seq<byte>, b1: seq<byte>, seqno: nat, msglen: nat,
                    c: byte, incoming: seq<byte>)
    requires state == Csum1 || state == Csum2
    requires InBody(s0, state, headeridx, b0, seqno, msglen, [c] + incoming)
    requires b1 == b0[Filled(state, msglen) := c]
    ensures state == Csum1 ==> InBody(s0, Csum2, headeridx, b1, seqno, msglen, incoming)
    ensures state == Csum2 ==> GoodHeader(b1) && msglen == U32(b1[3], b1[4], b1[5], b1[6]) && seqno == U16(b1[1], b1[2])
    ensures state == Csum2 ==> Scan(s0) == Scan(b1 + incoming)
  {
    hide U32, U16, Scan;
    var k := Filled(state, msglen);
    assert b0[..k] + ([c] + incoming) == b1[..k + 1] + incoming;
    if state == Csum2 {
      assert b1[..k + 1] == b1;
    }
  }

  lemma WholeFrame(s0: seq<byte>, buf: seq<byte>, seqno: nat, msglen: nat, incoming: seq<byte>)
    requires |buf| == msglen + 10
    requires GoodHeader(buf) && msglen == U32(buf[3], buf[4], buf[5], buf[6]) && seqno == U16(buf[1], buf[2])
    requires Scan(s0) == Scan(buf + incoming)
    ensures Scan(s0) == if CrcGood(buf) then Frame(buf[HEADER..msglen + HEADER], seqno, incoming) else BadChecksum(incoming)
  {
    ScanWhole(buf, incoming);
  }

  // ----- sending

  /** jtagmkII_send: the frame is assembled in a buffer, with the current sequence number. */
  method SendFrame(port: Port, seqno: nat, data: seq<byte>)
    requires seqno < 0x10000 && |data| < 0x1_0000_0000
    modifies port`outgoing
    ensures port.outgoing == old(port.outgoing) + FrameBytes(seqno, data)
  {
    hide WithCrc, B2, B4;
    var n := |data|;
    var buf := new byte[n + 10];
    buf[0] := MESSAGE_START;
    buf[1], buf[2] := B2(seqno)[0], B2(seqno)[1];
    buf[3], buf[4], buf[5], buf[6] := B4(n)[0], B4(n)[1], B4(n)[2], B4(n)[3];
    buf[7] := TOKEN;
    assert buf[..HEADER] == Header(seqno, n);
    forall i | 0 <= i < n {
      buf[8 + i] := data[i];
    }
    assert buf[..HEADER] == Header(seqno, n);
    assert buf[..n + 8] == Header(seqno, n) + data;
    CrcAppendTo(buf, n + 8);
    assert buf[..] == buf[..n + 10];
    port.Send(buf);
  }

  // ----- matching replies to commands

  /** The successor of a sequence number; 0xffff is reserved for events. */
  function NextSeqno(c: nat): (r: nat)
    requires c < 0xffff
    ensures r < 0xffff && r == (c + 1) % 0xffff
  {
    if c + 1 == 0xffff then 0 else c + 1
  }

  datatype Reply = Reply(payload: seq<byte>) | Empty | Failed(rc: int)

  /** What one call of jtagmkII_recv makes of a stream: the outcome, the rest of the
      stream, and the sequence numbers of the non-empty frames it took from it. */
  datatype Call = Call(reply: Reply, rest: seq<byte>, taken: seq<nat>)

  lemma {:induction false} ScanConsumes(s: seq<byte>)
    ensures var r := Scan(s); !r.Timeout? ==> |r.rest| < |s|
    ensures var r := Scan(s); r.Frame? ==> r.seqno < 0x10000
    decreases |s|
  {
    hide CrcGood, U32;
    if s == [] {
    } else if s[0] != MESSAGE_START {
      ScanConsumes(s[1..]);
    } else if |s| >= HEADER {
      ScanConsumes(s[HEADER..]);
    }
  }

  function Deliver(s: seq<byte>, c: nat): Call
    decreases |s|
  {
    ScanConsumes(s);
    match Scan(s)
    case Timeout => Call(Failed(-1), [], [])
    case BadChecksum(rest) => Call(Failed(-4), rest, [])
    case Frame(p, q, rest) =>
      if |p| == 0 then Call(Empty, rest, [])
      else if q == c then Call(Reply(p), rest, [q])
      else var later := Deliver(rest, c); later.(taken := [q] + later.taken)
  }

  /** Behind clean garbage, the payload of the frame with the current number is delivered whole,
      and nothing behind the frame is touched. */
  lemma ReplyIsDelivered(g: seq<byte>, c: nat, p: seq<byte>, rest: seq<byte>)
    requires Clean(g) && c < 0xffff && 0 < |p| <= MAX_MESSAGE
    ensures Deliver(g + FrameBytes(c, p) + rest, c) == Call(Reply(p), rest, [c])
  {
    hide FrameBytes, Scan, Clean;
    ResyncExactly(g, c, p, rest);
  }

  /** A frame with another number in front changes only what was taken. */
  lemma OtherFrameIsDropped(g: seq<byte>, q: nat, p: seq<byte>, rest: seq<byte>, c: nat)
    requires Clean(g) && q < 0x10000 && q != c && 0 < |p| <= MAX_MESSAGE
    ensures Deliver(g + FrameBytes(q, p) + rest, c) == Deliver(rest, c).(taken := [q] + Deliver(rest, c).taken)
  {
    hide FrameBytes, Scan, Clean;
    ResyncExactly(g, q, p, rest);
  }

  /** An empty frame ends the call, whatever its number: an event's or one long gone. */
  lemma EmptyFrameEndsTheCall(q: nat, rest: seq<byte>, c: nat)
    requires q < 0x10000
    ensures Deliver(FrameBytes(q, []) + rest, c) == Call(Empty, rest, [])
  {
    hide FrameBytes, Scan;
    FrameAlone(q, [], rest);
  }

  /** A frame with one wrong byte, in the number, the payload or the CRC, ends the call with -4
      whatever its number is; what follows the frame is left in the stream. */
  lemma BadChecksumEndsTheCall(g: seq<byte>, q: nat, p: seq<byte>, k: nat, v: byte, rest: seq<byte>, c: nat)
    requires Clean(g) && q < 0x10000 && |p| <= MAX_MESSAGE
    requires var f := FrameBytes(q, p); k < |f| && (k == 1 || k == 2 || k >= 8) && v != f[k]
    ensures Deliver(g + FrameBytes(q, p)[k := v] + rest, c) == Call(Failed(-4), rest, [])
  {
    var f := FrameBytes(q, p);
    var t := f[k := v];
    BrokenFrame(q, p, k, v, rest);
    hide FrameBytes, Scan, Clean;
    assert g + t + rest == g + (t + rest);
    SkipClean(g, t + rest);
  }

  lemma BrokenFrame(q: nat, p: seq<byte>, k: nat, v: byte, rest: seq<byte>)
    requires q < 0x10000 && |p| <= MAX_MESSAGE
    requires var f := FrameBytes(q, p); k < |f| && (k == 1 || k == 2 || k >= 8) && v != f[k]
    ensures Scan(FrameBytes(q, p)[k := v] + rest) == BadChecksum(rest)
  {
    FrameLayout(q, p);
    AppendedIsGood(Header(q, |p|) + p);
    hide FrameBytes, U16, U32, CrcGood, Scan;
    var f := FrameBytes(q, p);
    ByteChangeIsDetected(f, k, v);
    BadBody(f[k := v], |p|, rest);
  }

  lemma BadBody(t: seq<byte>, n: nat, rest: seq<byte>)
    requires n <= MAX_MESSAGE && |t| == n + 10 && t[0] == MESSAGE_START && t[7] == TOKEN
    requires U32(t[3], t[4], t[5], t[6]) == n && !CrcGood(t)
    ensures Scan(t + rest) == BadChecksum(rest)
  {
    hide U32, CrcGood;
    var s := t + rest;
    assert s[..n + 10] == t && s[n + 10..] == rest;
  }

  /** Clean garbage and then silence ends the call with -1. */
  lemma SilenceTimesOut(g: seq<byte>, c: nat)
    requires Clean(g) && c < 0xffff
    ensures Deliver(g, c) == Call(Failed(-1), [], [])
  {
    SkipClean(g, []);
    assert g + [] == g;
    hide Clean;
  }

  /** The replies of n calls in a row. */
  function Replies(s: seq<byte>, c: nat, n: nat): (r: seq<Reply>)
    requires c < 0xffff
    ensures |r| == n
    decreases n
  {
    if n == 0 then []
    else
      var call := Deliver(s, c);
      [call.reply] + Replies(call.rest, if call.reply.Reply? then NextSeqno(c) else c, n - 1)
  }

  /** The frames of a device that answers the commands from number c on. */
  function Answers(c: nat, ps: seq<seq<byte>>): seq<byte>
    requires c < 0xffff && forall p | p in ps :: |p| <= MAX_MESSAGE
    decreases |ps|
  {
    if ps == [] then [] else FrameBytes(c, ps[0]) + Answers(NextSeqno(c), ps[1..])
  }

  /** Calls in a row deliver the payloads of the answers, each whole and in order, across the wrap of the number. */
  lemma {:induction false} AnswersAreDelivered(c: nat, ps: seq<seq<byte>>, rest: seq<byte>)
    requires c < 0xffff && forall p | p in ps :: 0 < |p| <= MAX_MESSAGE
    ensures Replies(Answers(c, ps) + rest, c, |ps|) == seq(|ps|, i requires 0 <= i < |ps| => Reply(ps[i]))
    decreases |ps|
  {
    hide FrameBytes, Deliver;
    if ps != [] {
      var f, later := FrameBytes(c, ps[0]), Answers(NextSeqno(c), ps[1..]);
      assert ps[0] in ps;
      ReplyIsDelivered([], c, ps[0], later + rest);
      assert Answers(c, ps) + rest == [] + f + (later + rest);
      AnswersAreDelivered(NextSeqno(c), ps[1..], rest);
    }
  }

  class Session {
    const port: Port
    var commandSequence: nat

    ghost predicate Valid()
      reads this
    {
      commandSequence < 0xffff
    }

    constructor (port: Port)
      ensures Valid() && this.port == port && commandSequence == 0
    {
      this.port, commandSequence := port, 0;
    }

    method Send(data: seq<byte>)
      requires Valid() && |data| < 0x1_0000_0000
      modifies port`outgoing
      ensures port.outgoing == old(port.outgoing) + FrameBytes(commandSequence, data)
    {
      SendFrame(port, commandSequence, data);
    }

    /** jtagmkII_recv: frames with other numbers are dropped, until one carries the current number. */
    method Recv() returns (reply: Reply)
      requires Valid()
      modifies this, port`incoming
      ensures Valid()
      ensures var call := Deliver(old(port.incoming), old(commandSequence));
        && reply == call.reply && port.incoming == call.rest
        && commandSequence == if reply.Reply? then NextSeqno(old(commandSequence)) else old(commandSequence)
    {
      ghost var s0, c, skipped := port.incoming, commandSequence, [];
      while true
        invariant commandSequence == c
        invariant Deliver(s0, c) == Deliver(port.incoming, c).(taken := skipped + Deliver(port.incoming, c).taken)
        decreases |port.incoming|
      {
        ghost var s := port.incoming;
        ScanConsumes(s);
        var rv, msg, rSeqno := RecvFrame(port);
        if rv <= 0 {
          return if rv == 0 then Empty else Failed(rv);
        }
        if rSeqno == commandSequence {
          commandSequence := commandSequence + 1;
          if commandSequence == 0xffff {
            commandSequence := 0;
          }
          return Reply(msg);
        }
        skipped := skipped + [rSeqno];
        assert skipped + Deliver(port.incoming, c).taken == skipped[..|skipped| - 1] + ([rSeqno] + Deliver(port.incoming, c).taken);
      }
    }
  }

  // ----- runs of calls

  /** The counter after the given frames have been taken. */
  function Counter(c: nat, qs: seq<nat>): (r: nat)
    requires c < 0xffff
    ensures r < 0xffff
    decreases |qs|
  {
    if qs == [] then c else Counter(if qs[0] == c then NextSeqno(c) else c, qs[1..])
  }

  /** Frame k is accepted: it carries the number the counter has when it is taken. */
  predicate Accepted(c: nat, qs: seq<nat>, k: nat)
    requires c < 0xffff && k < |qs|
  {
    qs[k] == Counter(c, qs[..k])
  }

  function Acceptances(c: nat, qs: seq<nat>): nat
    requires c < 0xffff
    decreases |qs|
  {
    if qs == [] then 0
    else (if qs[0] == c then 1 else 0) + Acceptances(if qs[0] == c then NextSeqno(c) else c, qs[1..])
  }

  /** The counter counts the accepted frames modulo 65535. */
  lemma {:induction false} CounterCounts(c: nat, qs: seq<nat>)
    requires c < 0xffff
    ensures Counter(c, qs) == (c + Acceptances(c, qs)) % 0xffff
    decreases |qs|
  {
    if qs != [] {
      CounterCounts(if qs[0] == c then NextSeqno(c) else c, qs[1..]);
    }
  }

  lemma {:induction false} CounterAppend(c: nat, a: seq<nat>, b: seq<nat>)
    requires c < 0xffff
    ensures Counter(c, a + b) == Counter(Counter(c, a), b)
    ensures Acceptances(c, a + b) == Acceptances(c, a) + Acceptances(Counter(c, a), b)
    decreases |a|
  {
    if a == [] {
      assert a + b == b;
    } else {
      assert (a + b)[1..] == a[1..] + b;
      CounterAppend(if a[0] == c then NextSeqno(c) else c, a[1..], b);
    }
  }

  /** An event (number 0xffff) is never taken for a reply. */
  lemma EventIsNeverAccepted(c: nat, qs: seq<nat>, k: nat)
    requires c < 0xffff && k < |qs| && qs[k] == 0xffff
    ensures !Accepted(c, qs, k)
  {
  }

  /** After frame i was accepted, a frame with the same number is accepted only when
      a multiple of 65535 replies, counting from frame i, were accepted before it. */
  lemma LateDuplicateIsDiscarded(c: nat, qs: seq<nat>, i: nat, j: nat)
    requires c < 0xffff && i < j < |qs| && Accepted(c, qs, i) && qs[j] == qs[i]
    ensures Accepted(c, qs, j) <==> Acceptances(qs[i], qs[i..j]) % 0xffff == 0
    ensures Acceptances(qs[i], qs[i..j]) >= 1
    ensures Accepted(c, qs, j) ==> Acceptances(qs[i], qs[i..j]) >= 0xffff
  {
    var n := Acceptances(qs[i], qs[i..j]);
    assert qs[..j] == qs[..i] + qs[i..j];
    CounterAppend(c, qs[..i], qs[i..j]);
    CounterCounts(qs[i], qs[i..j]);
    assert qs[i..j][0] == qs[i];
    assert (qs[i] + n) % 0xffff == qs[i] <==> n % 0xffff == 0;
  }

  /** A call stops at the first frame that carries the current number: what it took moves
      the counter as Counter says, and only the last frame taken can have been accepted. */
  lemma {:induction false} CallFollowsCounter(s: seq<byte>, c: nat)
    requires c < 0xffff
    ensures var call := Deliver(s, c);
      && Counter(c, call.taken) == (if call.reply.Reply? then NextSeqno(c) else c)
      && Acceptances(c, call.taken) == (if call.reply.Reply? then 1 else 0)
      && (forall k | 0 <= k < |call.taken| :: call.taken[k] == c <==> call.reply.Reply? && k == |call.taken| - 1)
      && (call.reply.Reply? ==> call.taken != [])
    decreases |s|
  {
    ScanConsumes(s);
    match Scan(s)
    case Timeout =>
    case BadChecksum(rest) =>
    case Frame(p, q, rest) =>
      if |p| != 0 && q != c {
        CallFollowsCounter(rest, c);
        var call := Deliver(s, c);
        assert call.taken[1..] == Deliver(rest, c).taken;
      }
  }

  /** n calls in a row: the counter, and everything they took. */
  function Calls(s: seq<byte>, c: nat, n: nat): (r: (nat, seq<nat>))
    requires c < 0xffff
    ensures r.0 < 0xffff
    decreases n
  {
    if n == 0 then (c, [])
    else
      var call := Deliver(s, c);
      var later := Calls(call.rest, if call.reply.Reply? then NextSeqno(c) else c, n - 1);
      (later.0, call.taken + later.1)
  }

  /** Over any number of calls the session's counter is the counter of all frames taken. */
  lemma {:induction false} CallsFollowCounter(s: seq<byte>, c: nat, n: nat)
    requires c < 0xffff
    ensures Calls(s, c, n).0 == Counter(c, Calls(s, c, n).1)
    decreases n
  {
    if n > 0 {
      var call := Deliver(s, c);
      CallFollowsCounter(s, c);
      var c' := if call.reply.Reply? then NextSeqno(c) else c;
      CallsFollowCounter(call.rest, c', n - 1);
      CounterAppend(c, call.taken, Calls(call.rest, c', n - 1).1);
    }
  }
}
