/** The pipelined flash access of ft245r.c: many commands are sent ahead, and
    each reply is fetched later, when its request reaches the head of the FIFO. */
module Ft245rFlash {
  import opened Ft245rSpi
  import opened Ft245rQueue
  import opened Options
  import opened Division
  import opened ByteWords
  import Ring = Ft245rRing
  import Pipe = Ft245rPipe
  import opened Opcode

  const CYCLES: nat := 2
  const FRAGMENT_SIZE: nat := 512
  const REQ_OUTSTANDINGS: nat := 10
  const COMMANDS_PER_FRAGMENT: nat := FRAGMENT_SIZE / 8 / CYCLES / 4

  /** The most samples that can be under way: eleven fragments and the final clock-low sample. */
  const MAX_IN_FLIGHT: nat := (REQ_OUTSTANDINGS + 1) * FRAGMENT_SIZE + 1

  // ----- flash commands

  function ReadCommand(addr: nat): Command {
    Command(if addr % 2 == 1 then 0x28 else 0x20, (addr / 512 % 256) as bv8, (addr / 2 % 256) as bv8, 0)
  }

  function LoadCommand(addr: nat, data: byte): Command {
    Command(if addr % 2 == 1 then 0x48 else 0x40, (addr / 512 % 256) as bv8, (addr / 2 % 256) as bv8, data)
  }

  function ReadCommands(addr: nat, n: nat): (s: seq<Command>)
    ensures |s| == n
  {
    seq(n, i requires 0 <= i < n => ReadCommand(addr + i))
  }

  function FlashByte(flash: seq<byte>, op: byte, hi: nat, lo: nat): byte {
    var a := 2 * (hi * 256 + lo) + (if op == 0x28 then 1 else 0);
    if (op == 0x20 || op == 0x28) && a < |flash| then flash[a] else 0xff
  }

  /** A device with the given flash answers 0x20/0x28 with the low/high byte of the addressed word. */
  function FlashReply(flash: seq<byte>): Reply {
    (op: byte, hi: byte, lo: byte) => FlashByte(flash, op, hi as nat, lo as nat)
  }

  lemma ReadCommandAnswer(flash: seq<byte>, addr: nat)
    requires addr < |flash| && addr < 0x20000
    ensures var c := ReadCommand(addr); FlashReply(flash)(c.b0, c.b1, c.b2) == flash[addr]
  {
    AddressRoundTrip(addr);
  }

  // ----- what the queue of requests says about the samples not yet fetched

  /** Samples rs, the answer to one fragment, spell n bytes of flash from addr on. */
  ghost predicate Answers(pins: Pins, flash: seq<byte>, rs: seq<bv8>, addr: nat, n: nat) {
    64 * n <= |rs| && addr + n <= |flash| &&
    forall j: nat | j < n :: Extracted(pins, rs, 4 * j + 3, flash[addr + j])
  }

  /** The entries describe, in order, the answers in rs; together they cover flash[addr..end]. */
  ghost predicate Pending(pins: Pins, flash: seq<byte>, rs: seq<bv8>, entries: seq<Entry>, addr: nat, end: nat)
    decreases |entries|
  {
    if entries == [] then rs == [] && addr == end
    else
      var e := entries[0];
      && e.addr == addr && 0 <= e.n && 0 <= e.bytes <= |rs|
      && Answers(pins, flash, rs[..e.bytes], addr, e.n)
      && Pending(pins, flash, rs[e.bytes..], entries[1..], addr + e.n, end)
  }

  lemma {:induction false} PendingAppend(pins: Pins, flash: seq<byte>, rs: seq<bv8>, entries: seq<Entry>,
                        addr: nat, end: nat, more: seq<bv8>, n: nat)
    requires Pending(pins, flash, rs, entries, addr, end)
    requires Answers(pins, flash, more, end, n)
    ensures Pending(pins, flash, rs + more, entries + [Entry(end, |more|, n)], addr, end + n)
    decreases |entries|
  {
    var last := Entry(end, |more|, n);
    if entries == [] {
      assert rs + more == more && more[..|more|] == more && entries + [last] == [last];
    } else {
      var e := entries[0];
      PendingAppend(pins, flash, rs[e.bytes..], entries[1..], addr + e.n, end, more, n);
      assert (rs + more)[e.bytes..] == rs[e.bytes..] + more;
      assert (rs + more)[..e.bytes] == rs[..e.bytes];
      assert (entries + [last])[1..] == entries[1..] + [last];
    }
  }

  /** Every queued size is at most a fragment, except that the last one may have one sample more. */
  predicate SmallEntries(entries: seq<Entry>, extra: nat) {
    forall i | 0 <= i < |entries| :: 0 <= entries[i].bytes <= FRAGMENT_SIZE + if i == |entries| - 1 then extra else 0
  }

  lemma NothingPending(pins: Pins, flash: seq<byte>, rs: seq<bv8>, addr: nat)
    requires rs == []
    ensures Pending(pins, flash, rs, [], addr, addr)
    ensures SmallEntries([], 0) && SmallEntries([], 1)
  {
  }

  lemma AllServed(pins: Pins, flash: seq<byte>, rs: seq<bv8>, addr: nat, end: nat)
    requires Pending(pins, flash, rs, [], addr, end)
    ensures rs == [] && addr == end
  {
  }

  /** The queued sizes add up to the samples sent and not yet fetched. */
  lemma {:induction false} PendingSizes(pins: Pins, flash: seq<byte>, rs: seq<bv8>, entries: seq<Entry>, addr: nat, end: nat)
    requires Pending(pins, flash, rs, entries, addr, end)
    ensures SumBytes(entries) == |rs| && addr <= end <= |flash| + addr
    ensures entries != [] ==> end <= |flash|
    decreases |entries|
  {
    if entries != [] {
      var e := entries[0];
      PendingSizes(pins, flash, rs[e.bytes..], entries[1..], addr + e.n, end);
    }
  }

  lemma {:induction false} SizesBound(entries: seq<Entry>, extra: nat)
    requires SmallEntries(entries, extra)
    ensures 0 <= SumBytes(entries) <= |entries| * FRAGMENT_SIZE + extra
    decreases |entries|
  {
    if entries != [] {
      assert SmallEntries(entries[1..], extra);
      SizesBound(entries[1..], extra);
    }
  }

  // ----- the USB side

  /** The calls so far sent and received so many samples, and kept at most peak under way. */
  ghost predicate Accounted(history: seq<Pipe.Io>, sent: nat, got: nat, peak: nat) {
    Pipe.Sent(history) == sent && Pipe.Received(history) == got && Pipe.Bounded(history, peak)
  }

  lemma SendAccounted(history: seq<Pipe.Io>, sent: nat, got: nat, peak: nat, n: nat, peak': nat)
    requires Accounted(history, sent, got, peak) && peak <= peak' && sent + n - got <= peak'
    ensures Accounted(history + [Pipe.Send(n)], sent + n, got, peak')
  {
    hide Pipe.Sent, Pipe.Received, Pipe.Bounded;
    Pipe.BoundedMore(history, Pipe.Send(n), peak, peak');
  }

  lemma RecvAccounted(history: seq<Pipe.Io>, sent: nat, got: nat, peak: nat, n: nat)
    requires Accounted(history, sent, got, peak) && got + n <= sent
    ensures Accounted(history + [Pipe.Recv(n)], sent, got + n, peak)
  {
    hide Pipe.Sent, Pipe.Received, Pipe.Bounded;
    Pipe.BoundedMore(history, Pipe.Recv(n), peak, peak);
  }

  /** The adapter with the device behind it, as the programmer sees it: every
      sample written comes back as one sample, and ft245r_recv hands them out in
      order.  noise fills what the device leaves open. */
  class Link {
    const pins: Pins
    const reply: Reply
    const noise: nat -> bv8
    var chip: Chip
    var received: seq<bv8>
    var got: nat
    ghost var peak: nat
    /** The calls of ft245r_send and ft245r_recv so far. */
    ghost var history: seq<Pipe.Io>

    constructor (pins: Pins, reply: Reply, noise: nat -> bv8, chip: Chip)
      requires ValidPins(pins) && ValidChip(chip)
      ensures Valid() && this.pins == pins && this.reply == reply && this.chip == chip && Waiting() == []
      ensures peak == 0
    {
      this.pins, this.reply, this.noise, this.chip := pins, reply, noise, chip;
      received, got, peak, history := [], 0, 0, [];
    }

    ghost predicate Valid()
      reads this
    {
      ValidPins(pins) && ValidChip(chip) && got <= |received| && |received| - got <= peak
      && Accounted(history, |received|, got, peak)
    }

    /** Samples that have come back, or will, and were not fetched yet. */
    ghost function Waiting(): seq<bv8>
      requires got <= |received|
      reads this
    {
      received[got..]
    }

    /** ft245r_send: the samples go out one by one and each brings one back. */
    method Send(buf: array<bv8>, len: nat)
      requires Valid() && len <= buf.Length
      modifies this
      ensures Valid() && got == old(got)
      ensures chip == ChipRun(pins, reply, old(chip), buf[..len])
      ensures old(received) <= received && |received| == |old(received)| + len
      ensures Waiting() == old(Waiting()) + received[|old(received)|..]
      ensures Transcript(pins, reply, old(chip), buf[..len], received[|old(received)|..])
      ensures peak == if |Waiting()| > old(peak) then |Waiting()| else old(peak)
    {
      hide SetBits, Level, ChipStep, Accounted;
      ghost var r0, chip0 := received, chip;
      assert buf[..0] == [] && received[|r0|..] == [];
      var k := 0;
      while k < len
        invariant 0 <= k <= len && got == old(got) && peak == old(peak) && history == old(history)
        invariant ValidChip(chip) && r0 <= received && |received| == |r0| + k
        invariant chip == ChipRun(pins, reply, chip0, buf[..k])
        invariant Transcript(pins, reply, chip0, buf[..k], received[|r0|..])
      {
        var x := noise(|received|);
        if chip.miso.Some? {
          x := SetBits(x, pins.miso, chip.miso.value);
          PinHolds(noise(|received|), pins.miso, chip.miso.value);
        }
        ghost var before := received[|r0|..];
        TranscriptAppend(pins, reply, chip0, buf[..k], before, [buf[k]], [x]);
        assert buf[..k + 1] == buf[..k] + [buf[k]];
        assert (received + [x])[|r0|..] == before + [x];
        OneSample(pins, reply, chip, buf[k], x);
        chip := ChipStep(pins, reply, chip, buf[k]);
        received := received + [x];
        k := k + 1;
      }
      assert received[got..] == r0[got..] + received[|r0|..];
      peak := if |received| - got > peak then |received| - got else peak;
      SendAccounted(history, |r0|, got, old(peak), len, peak);
      history := history + [Pipe.Send(len)];
    }

    /** ft245r_recv: it would wait for ever for samples that were never asked for. */
    method Recv(buf: array<bv8>, len: nat)
      requires Valid() && len <= |Waiting()| && len <= buf.Length
      modifies this`got, this`history, buf
      ensures Valid()
      ensures buf[..len] == old(Waiting())[..len]
      ensures Waiting() == old(Waiting())[len..]
    {
      hide ValidPins, ValidChip, Accounted;
      RecvAccounted(history, |received|, got, peak, len);
      var i := 0;
      while i < len
        invariant 0 <= i <= len && got == old(got) + i <= |received| && history == old(history)
        invariant buf[..i] == old(Waiting())[..i]
      {
        buf[i] := received[got];
        got := got + 1;
        i := i + 1;
      }
      history := history + [Pipe.Recv(len)];
    }
  }

  lemma OneSample(pins: Pins, reply: Reply, c: Chip, w: bv8, x: bv8)
    requires ValidChip(c) && (c.miso.Some? ==> Level(x, pins.miso) == c.miso.value)
    ensures Transcript(pins, reply, c, [w], [x])
    ensures ChipRun(pins, reply, c, [w]) == ChipStep(pins, reply, c, w)
  {
    assert [w][1..] == [] && [x][1..] == [];
  }

  // ----- the same clock and data levels from two output bytes

  ghost predicate SameSamples(pins: Pins, a: bv8, b: bv8) {
    forall bits :: Samples(pins, a, bits) == Samples(pins, b, bits)
  }

  lemma DrivenSameSamples(pins: Pins, out: bv8, data: bool, clock: bool)
    requires ValidPins(pins)
    ensures SameSamples(pins, Drive(pins, out, data, clock), out)
  {
    forall bits ensures Samples(pins, Drive(pins, out, data, clock), bits) == Samples(pins, out, bits) {
      SamplesForget(pins, out, data, clock, bits);
    }
  }

  lemma {:induction false} ClockedSamples(pins: Pins, out: bv8, level: bool, bits: seq<bool>)
    requires ValidPins(pins)
    ensures Samples(pins, SetBits(out, pins.sck, level), bits) == Samples(pins, out, bits)
  {
    if bits != [] {
      ClockedDrive(pins, out, level, bits[0], false);
      ClockedDrive(pins, out, level, bits[0], true);
      ClockedSamples(pins, out, level, bits[1..]);
    }
  }

  lemma ClockedDrive(pins: Pins, out: bv8, level: bool, data: bool, clock: bool)
    requires ValidPins(pins)
    ensures Drive(pins, SetBits(out, pins.sck, level), data, clock) == Drive(pins, out, data, clock)
  {
    SetBitsCommute(out, pins.sck, pins.mosi, level, data);
    SetBitsAgain(SetBits(out, pins.mosi, data), pins.sck, level, clock);
  }

  lemma ClockLowSameSamples(pins: Pins, out: bv8)
    requires ValidPins(pins)
    ensures SameSamples(pins, SetBits(out, pins.sck, false), out)
  {
    forall bits ensures Samples(pins, SetBits(out, pins.sck, false), bits) == Samples(pins, out, bits) {
      ClockedSamples(pins, out, false, bits);
    }
  }

  lemma ByteSamplesAppend(pins: Pins, out: bv8, out': bv8, a: seq<bool>, b: seq<bool>)
    requires SameSamples(pins, out', out)
    ensures Samples(pins, out, a) + Samples(pins, out', b) == Samples(pins, out, a + b)
  {
    SamplesAppend(pins, out, a, b);
  }

  /** A final sample with the clock low, or none. */
  predicate Tail(pins: Pins, x: seq<bv8>, last: bool) {
    if last then |x| == 1 && !Level(x[0], pins.sck) else x == []
  }

  /** A fragment: the samples of whole commands, and the clock-low sample after the last one. */
  lemma FragmentExecuted(pins: Pins, reply: Reply, c: Chip, out: bv8, cmds: seq<Command>, x: seq<bv8>, rs: seq<bv8>)
    requires ValidPins(pins) && c.bits == [] && cmds != [] && |x| <= 1
    requires Transcript(pins, reply, c, Samples(pins, out, CommandsBits(cmds)) + x, rs)
    ensures var c' := ChipRun(pins, reply, c, Samples(pins, out, CommandsBits(cmds)) + x);
      && c'.bits == [] && c'.log == c.log + cmds
      && (Tail(pins, x, true) ==> !c'.sck)
    ensures |rs| == 64 * |cmds| + |x|
    ensures forall j | 0 <= j < |cmds| ::
      Extracted(pins, rs, 4 * j + 3, reply(cmds[j].b0, cmds[j].b1, cmds[j].b2))
  {
    hide Extracted, Samples, CommandsBits;
    var ws := Samples(pins, out, CommandsBits(cmds));
    var n := 64 * |cmds|;
    var r0 := rs[..n];
    assert rs == r0 + rs[n..];
    TranscriptAppend(pins, reply, c, ws, r0, x, rs[n..]);
    SamplesShift(pins, reply, c, out, CommandsBits(cmds), r0);
    CommandsExecuted(reply, c, cmds);
    assert CommandsBits(cmds) != [];
    TailIdles(pins, reply, ChipRun(pins, reply, c, ws), x);
    forall j | 0 <= j < |cmds|
      ensures Extracted(pins, rs, 4 * j + 3, reply(cmds[j].b0, cmds[j].b1, cmds[j].b2))
    {
      ReplyRecovered(pins, reply, c, out, cmds, r0, j);
      ExtractedFromPrefix(pins, r0, rs, 4 * j + 3, reply(cmds[j].b0, cmds[j].b1, cmds[j].b2));
    }
  }

  /** After a command the clock is high: one more sample is at most a falling edge. */
  lemma TailIdles(pins: Pins, reply: Reply, c: Chip, x: seq<bv8>)
    requires ValidChip(c) && c.sck && |x| <= 1
    ensures ChipRun(pins, reply, c, x).bits == c.bits && ChipRun(pins, reply, c, x).log == c.log
    ensures Tail(pins, x, true) ==> !ChipRun(pins, reply, c, x).sck
  {
    if |x| == 1 {
      assert x[1..] == [];
    }
  }

  lemma ExtractedFromPrefix(pins: Pins, a: seq<bv8>, b: seq<bv8>, offset: nat, r: byte)
    requires 16 * offset + 16 <= |a| <= |b| && a == b[..|a|]
    ensures Extracted(pins, a, offset, r) <==> Extracted(pins, b, offset, r)
  {
    hide BitOf, Level;
    assert forall t | 0 <= t < 8 :: a[ReplySample(offset, t)] == b[ReplySample(offset, t)];
  }

  /** What the head request yields is the flash content it was sent for. */
  lemma ServeHead(pins: Pins, flash: seq<byte>, rs: seq<bv8>, entries: seq<Entry>, addr: nat, end: nat, vs: seq<byte>)
    requires entries != [] && Pending(pins, flash, rs, entries, addr, end)
    requires |vs| == entries[0].n
    requires forall j: nat | j < |vs| :: Extracted(pins, rs[..entries[0].bytes], 4 * j + 3, vs[j])
    ensures addr + |vs| <= |flash| && vs == flash[addr..addr + |vs|]
    ensures Pending(pins, flash, rs[entries[0].bytes..], entries[1..], addr + |vs|, end)
  {
    hide Extracted;
    var e := entries[0];
    forall j: nat | j < |vs| ensures vs[j] == flash[addr + j] {
      assert Extracted(pins, rs[..e.bytes], 4 * j + 3, flash[addr + j]);
      ExtractedIsUnique(pins, rs[..e.bytes], 4 * j + 3, vs[j], flash[addr + j]);
    }
  }

  lemma CommandSamplesGrow(pins: Pins, out: bv8, out': bv8, whole: seq<bv8>, cmds: seq<Command>, cmd: Command)
    requires SameSamples(pins, out', out) && 64 * |cmds| + 64 <= |whole|
    ensures Overwrite(Overwrite(whole, 0, Samples(pins, out, CommandsBits(cmds))), 64 * |cmds|,
                      Samples(pins, out', CommandBits(cmd)))
         == Overwrite(whole, 0, Samples(pins, out, CommandsBits(cmds + [cmd])))
  {
    hide CommandBits, Overwrite;
    CommandsBitsAppend(cmds, [cmd]);
    assert CommandsBits([cmd]) == CommandBits(cmd) by {
      assert CommandsBits([cmd][1..]) == [];
    }
    ByteSamplesAppend(pins, out, out', CommandsBits(cmds), CommandBits(cmd));
    OverwriteMore(whole, 0, Samples(pins, out, CommandsBits(cmds)), Samples(pins, out', CommandBits(cmd)));
  }

  /** What do_request relies on: the samples were asked for, fit the local buffer, and their bytes fit the memory. */
  predicate Servable(e: Entry, waiting: nat, size: nat) {
    && 0 <= e.addr && 0 <= e.n && e.addr + e.n <= size
    && 64 * e.n <= e.bytes <= waiting && e.bytes <= FRAGMENT_SIZE + 1 + 128
  }

  /** vs are the bytes spelled by the first e.bytes samples of rs. */
  ghost predicate Fetched(pins: Pins, rs: seq<bv8>, e: Entry, vs: seq<byte>) {
    && 0 <= e.n == |vs| && 64 * e.n <= e.bytes <= |rs|
    && forall j: nat | j < |vs| :: Extracted(pins, rs[..e.bytes], 4 * j + 3, vs[j])
  }

  lemma SameFetched(pins: Pins, a: seq<bv8>, b: seq<bv8>, e: Entry, vs: seq<byte>)
    requires 0 <= e.bytes <= |a| && e.bytes <= |b| && a[..e.bytes] == b[..e.bytes] && Fetched(pins, a, e, vs)
    ensures Fetched(pins, b, e, vs)
  {
    hide Extracted;
  }

  lemma OverwriteSlice<T>(s: seq<T>, start: nat, t: seq<T>, a: nat, b: nat)
    requires start <= a <= b <= |t| && b <= |s|
    ensures Overwrite(Overwrite(s, start, t[start..a]), a, t[a..b]) == Overwrite(s, start, t[start..b])
  {
    OverwriteMore(s, start, t[start..a], t[a..b]);
    assert t[start..a] + t[a..b] == t[start..b];
  }

  lemma OverwriteOne<T>(s: seq<T>, k: nat, x: T)
    requires k < |s|
    ensures Overwrite(s, k, [x]) == s[k := x]
  {
  }

  // ----- the commands of a paged write

  /** The commands avr_write_page issues for a page: an extended address, if the
      part has one, and the page write; None if the part defines no page write. */
  type PageOp = Option<nat -> seq<Command>>

  /** The instructions of a memory that avr_write_page uses. */
  datatype PageOpcodes = PageOpcodes(writePage: seq<OpBit>, loadExt: Option<seq<OpBit>>, wordAddressed: bool)

  predicate ValidOpcodes(ops: PageOpcodes) {
    ValidOp(ops.writePage) && (ops.loadExt.Some? ==> ValidOp(ops.loadExt.value))
  }

  /** An instruction with its address bits set, all others as the instruction says. */
  function OpCommand(op: seq<OpBit>, addr: nat): Command
    requires ValidOp(op)
  {
    var c := Opcode.Set(op, Addr(addr), Opcode.Set(op, Values, [0, 0, 0, 0]));
    Command(c[0], c[1], c[2], c[3])
  }

  /** The commands that commit the page at base. */
  function PageCommands(ops: PageOpcodes, base: nat): seq<Command>
    requires ValidOpcodes(ops)
  {
    var addr := if ops.wordAddressed then base / 2 else base;
    (if ops.loadExt.Some? then [OpCommand(ops.loadExt.value, addr)] else []) + [OpCommand(ops.writePage, addr)]
  }

  ghost predicate CommitsWith(opcodes: Option<PageOpcodes>, pageOp: PageOp) {
    && (pageOp.Some? <==> opcodes.Some?)
    && (opcodes.Some? ==> ValidOpcodes(opcodes.value) && forall base: nat :: pageOp.value(base) == PageCommands(opcodes.value, base))
  }

  /** The buffer cleared, then avr_set_bits and avr_set_addr. */
  method Assemble(op: seq<OpBit>, addr: nat) returns (cmd: Command)
    requires ValidOp(op)
    ensures cmd == OpCommand(op, addr)
  {
    hide Opcode.Set;
    var buf := new bv8[4](_ => 0);
    assert buf[..] == [0, 0, 0, 0];
    AvrSetBits(op, buf);
    AvrSetAddr(op, buf, addr);
    cmd := Command(buf[0], buf[1], buf[2], buf[3]);
  }

  function LoadCommands(data: seq<byte>, addr: nat, n: nat): (s: seq<Command>)
    requires addr + n <= |data|
    ensures |s| == n
  {
    seq(n, i requires 0 <= i < n => LoadCommand(addr + i, data[addr + i]))
  }

  predicate PageEnd(k: nat, n: nat, pageSize: nat)
    requires pageSize > 0
  {
    k % pageSize == 0 || k == n
  }

  /** Byte by byte: load it, and commit its page after the last byte of the page. */
  function WriteLog(commit: nat -> seq<Command>, data: seq<byte>, addr: nat, i: nat, n: nat, pageSize: nat): seq<Command>
    requires i <= n && addr + n <= |data| && pageSize > 0
    decreases n - i
  {
    if i == n then []
    else
      [LoadCommand(addr + i, data[addr + i])]
      + (if PageEnd(i + 1, n, pageSize) then commit(BlockStart(addr + i, pageSize)) else [])
      + WriteLog(commit, data, addr, i + 1, n, pageSize)
  }

  /** Cutting a write into fragments does not change what the device is told. */
  lemma {:induction false} WriteLogOfFragment(commit: nat -> seq<Command>, data: seq<byte>, addr: nat, i: nat, j: nat, n: nat, pageSize: nat)
    requires 0 < j && i + j <= n && addr + n <= |data| && pageSize > 0 && addr % pageSize == 0
    requires forall k | i < k < i + j :: !PageEnd(k, n, pageSize)
    ensures WriteLog(commit, data, addr, i, n, pageSize) ==
      LoadCommands(data, addr + i, j)
      + (if PageEnd(i + j, n, pageSize) then commit(BlockStart(addr + i, pageSize)) else [])
      + WriteLog(commit, data, addr, i + j, n, pageSize)
    decreases j
  {
    hide LoadCommand, BlockStart, WriteLog, LoadCommands, PageEnd;
    WriteLogFirst(commit, data, addr, i, n, pageSize);
    FirstLoad(data, addr + i, j);
    if j > 1 {
      WriteLogOfFragment(commit, data, addr, i + 1, j - 1, n, pageSize);
      NotPageEnd(i + 1, n, pageSize);
      SamePage(addr, i, pageSize);
    }
  }

  lemma WriteLogFirst(commit: nat -> seq<Command>, data: seq<byte>, addr: nat, i: nat, n: nat, pageSize: nat)
    requires i < n && addr + n <= |data| && pageSize > 0
    ensures WriteLog(commit, data, addr, i, n, pageSize) ==
      [LoadCommand(addr + i, data[addr + i])]
      + (if PageEnd(i + 1, n, pageSize) then commit(BlockStart(addr + i, pageSize)) else [])
      + WriteLog(commit, data, addr, i + 1, n, pageSize)
  {
  }

  lemma FirstLoad(data: seq<byte>, addr: nat, j: nat)
    requires 0 < j && addr + j <= |data|
    ensures j == 1 ==> LoadCommands(data, addr, j) == [LoadCommand(addr, data[addr])]
    ensures LoadCommands(data, addr, j) == [LoadCommand(addr, data[addr])] + LoadCommands(data, addr + 1, j - 1)
  {
    hide LoadCommand;
  }

  lemma SameSamplesTransitive(pins: Pins, a: bv8, b: bv8, c: bv8)
    requires SameSamples(pins, a, b) && SameSamples(pins, b, c)
    ensures SameSamples(pins, a, c)
  {
    hide Samples;
  }

  lemma LastLoad(data: seq<byte>, addr: nat, j: nat)
    requires addr + j < |data|
    ensures LoadCommands(data, addr, j + 1) == LoadCommands(data, addr, j) + [LoadCommand(addr + j, data[addr + j])]
  {
    hide LoadCommand;
  }

  lemma LastRead(addr: nat, j: nat)
    ensures ReadCommands(addr, j + 1) == ReadCommands(addr, j) + [ReadCommand(addr + j)]
  {
    hide ReadCommand;
  }

  lemma NotPageEnd(k: nat, n: nat, pageSize: nat)
    requires pageSize > 0 && !PageEnd(k, n, pageSize)
    ensures k % pageSize != 0
  {
  }

  lemma SamePage(addr: nat, i: nat, pageSize: nat)
    requires pageSize > 0 && addr % pageSize == 0 && (i + 1) % pageSize != 0
    ensures BlockStart(addr + i, pageSize) == BlockStart(addr + i + 1, pageSize)
  {
    assert addr == pageSize * (addr / pageSize);
    AddMultiple(pageSize, addr / pageSize, i);
    AddMultiple(pageSize, addr / pageSize, i + 1);
    NextInBlock(i, pageSize);
  }

  // ----- the programmer

  predicate LoadEntries(entries: seq<Entry>, size: nat) {
    forall i | 0 <= i < |entries| :: entries[i].n == 0 && 0 <= entries[i].addr <= size
  }

  class Programmer {
    const bus: Bitbang
    const queue: RequestQueue
    const link: Link
    const opcodes: Option<PageOpcodes>
    ghost const pageOp: PageOp

    constructor (bus: Bitbang, queue: RequestQueue, link: Link, opcodes: Option<PageOpcodes>)
      requires opcodes.Some? ==> ValidOpcodes(opcodes.value)
      ensures this.bus == bus && this.queue == queue && this.link == link && this.opcodes == opcodes
      ensures CommitsWith(opcodes, pageOp)
    {
      this.bus, this.queue, this.link, this.opcodes := bus, queue, link, opcodes;
      this.pageOp := if opcodes.None? then None else Some((base: nat) => PageCommands(opcodes.value, base));
    }

    ghost predicate Valid()
      reads this, link, queue, queue.queue, queue.pool
    {
      bus.pins == link.pins && link.Valid() && queue.Valid() && CommitsWith(opcodes, pageOp)
    }

    /** Nothing is under way and the device is between two commands. */
    ghost predicate Idle()
      reads this, link, queue
      requires link.got <= |link.received|
    {
      queue.entries == [] && link.Waiting() == [] && link.chip.bits == []
    }

    /** set_data on top of what is already in the buffer: the samples of bits, from start on. */
    method PutByte(buf: array<bv8>, pos: nat, data: byte,
                   ghost whole: seq<bv8>, ghost start: nat, ghost out0: bv8, ghost bits: seq<bool>)
      returns (n: nat)
      requires ValidPins(bus.pins) && pos == start + 2 * |bits| && pos + 16 <= buf.Length == |whole|
      requires buf[..] == Overwrite(whole, start, Samples(bus.pins, out0, bits))
      requires SameSamples(bus.pins, bus.out, out0)
      modifies bus, buf
      ensures n == 16
      ensures buf[..] == Overwrite(whole, start, Samples(bus.pins, out0, bits + Bits(data)))
      ensures SameSamples(bus.pins, bus.out, out0)
    {
      hide Accounted, CommitsWith, Overwrite, Samples, Bits, Drive, BitOf;
      ghost var out1 := bus.out;
      n := bus.SetData(buf, pos, data);
      DrivenSameSamples(bus.pins, out1, BitOf(data, 7), true);
      ByteSamplesAppend(bus.pins, out0, out1, bits, Bits(data));
      OverwriteMore(whole, start, Samples(bus.pins, out0, bits), Samples(bus.pins, out1, Bits(data)));
    }

    /** Four calls of set_data. */
    method PutCommand(buf: array<bv8>, pos: nat, cmd: Command) returns (n: nat)
      requires ValidPins(bus.pins) && pos + 64 <= buf.Length
      modifies bus, buf
      ensures n == 64
      ensures buf[..] == Overwrite(old(buf[..]), pos, Samples(bus.pins, old(bus.out), CommandBits(cmd)))
      ensures SameSamples(bus.pins, bus.out, old(bus.out))
    {
      hide Accounted, CommitsWith, Bits;
      ghost var whole, out0 := buf[..], bus.out;
      ghost var s0, s1, s2 := Bits(cmd.b0), Bits(cmd.b1), Bits(cmd.b2);
      OverwriteNothing(whole, pos);
      n := PutByte(buf, pos, cmd.b0, whole, pos, out0, []);
      assert [] + s0 == s0;
      var k := PutByte(buf, pos + n, cmd.b1, whole, pos, out0, s0);
      n := n + k;
      k := PutByte(buf, pos + n, cmd.b2, whole, pos, out0, s0 + s1);
      n := n + k;
      k := PutByte(buf, pos + n, cmd.b3, whole, pos, out0, s0 + s1 + s2);
      n := n + k;
    }

    /** Another command behind those that are in the buffer already. */
    method AppendCommand(buf: array<bv8>, pos: nat, cmd: Command, ghost whole: seq<bv8>, ghost out0: bv8, ghost cmds: seq<Command>)
      returns (n: nat)
      requires ValidPins(bus.pins) && pos == 64 * |cmds| && pos + 64 <= buf.Length == |whole|
      requires buf[..] == Overwrite(whole, 0, Samples(bus.pins, out0, CommandsBits(cmds)))
      requires SameSamples(bus.pins, bus.out, out0)
      modifies bus, buf
      ensures n == 64
      ensures buf[..] == Overwrite(whole, 0, Samples(bus.pins, out0, CommandsBits(cmds + [cmd])))
      ensures SameSamples(bus.pins, bus.out, out0)
    {
      hide Overwrite, Samples, CommandsBits, CommandBits, SetBits;
      CommandSamplesGrow(bus.pins, out0, bus.out, whole, cmds, cmd);
      n := PutCommand(buf, pos, cmd);
    }

    /** do_request: fetch the samples of the oldest request and store the bytes they spell. */
    method DoRequest(mem: array<byte>) returns (served: bool, ghost vs: seq<byte>)
      requires Valid()
      requires queue.entries != [] ==> Servable(queue.entries[0], |link.Waiting()|, mem.Length)
      modifies queue, queue.Nodes(), link`got, link`history, mem
      ensures Valid() && queue.Nodes() == old(queue.Nodes())
      ensures served <==> old(queue.entries) != []
      ensures !served ==>
        queue.entries == [] && link.Waiting() == old(link.Waiting()) && mem[..] == old(mem[..])
      ensures served ==> queue.entries == old(queue.entries)[1..]
      ensures served ==> Fetched(bus.pins, old(link.Waiting()), old(queue.entries)[0], vs)
      ensures served ==> link.Waiting() == old(link.Waiting())[old(queue.entries)[0].bytes..]
      ensures served ==> mem[..] == Overwrite(old(mem[..]), old(queue.entries)[0].addr, vs)
    {
      hide Accounted, CommitsWith, Transcript, ChipRun, Overwrite, RequestQueue.Valid, Fetched, ValidPins, ValidChip;
      queue.HeadTells();
      vs := [];
      served := queue.reqHead != null;
      if served {
        var e := queue.Take();
        vs := Fetch(mem, e);
      }
    }

    /** The rest of do_request: the samples of request e are received and unpacked. */
    method Fetch(mem: array<byte>, e: Entry) returns (ghost vs: seq<byte>)
      requires link.Valid() && bus.pins == link.pins && Servable(e, |link.Waiting()|, mem.Length)
      modifies link`got, link`history, mem
      ensures link.Valid() && Fetched(bus.pins, old(link.Waiting()), e, vs)
      ensures link.Waiting() == old(link.Waiting())[e.bytes..]
      ensures mem[..] == Overwrite(old(mem[..]), e.addr, vs)
    {
      hide Accounted, Extracted, Overwrite, Fetched, ValidPins, ValidChip;
      var buf := new bv8[FRAGMENT_SIZE + 1 + 128];
      ghost var waiting := link.Waiting();
      link.Recv(buf, e.bytes);
      vs := Unpack(mem, e, buf);
      SameFetched(bus.pins, buf[..], waiting, e, vs);
    }

    /** The loop at the end of do_request. */
    method Unpack(mem: array<byte>, e: Entry, buf: array<bv8>) returns (ghost vs: seq<byte>)
      requires Servable(e, buf.Length, mem.Length) && mem != buf
      modifies mem
      ensures Fetched(bus.pins, buf[..], e, vs)
      ensures mem[..] == Overwrite(old(mem[..]), e.addr, vs)
    {
      hide Accounted, CommitsWith, Extracted, Overwrite;
      vs := [];
      ghost var mem0 := mem[..];
      var addr, j := e.addr, 0;
      OverwriteNothing(mem0, e.addr);
      while j < e.n
        invariant 0 <= j <= e.n && |vs| == j && addr == e.addr + j
        invariant mem[..] == Overwrite(mem0, e.addr, vs)
        invariant forall i: nat | i < j :: Extracted(bus.pins, buf[..e.bytes], 4 * i + 3, vs[i])
      {
        var r := bus.ExtractData(buf, 4 * j + 3);
        ExtractedFromPrefix(bus.pins, buf[..e.bytes], buf[..], 4 * j + 3, r);
        OverwriteMore(mem0, e.addr, vs, [r]);
        OverwriteOne(mem[..], addr, r);
        mem[addr] := r;
        vs := vs + [r];
        addr, j := addr + 1, j + 1;
      }
    }

    /** One turn of the inner loop of the flash read: up to eight read commands, and
        the clock-low sample when they are the last. */
    method ReadFragment(buf: array<bv8>, addr: nat, i: nat, nBytes: nat) returns (j: nat, bufPos: nat, ghost x: seq<bv8>)
      requires ValidPins(bus.pins) && i < nBytes && buf.Length == FRAGMENT_SIZE + 1
      modifies bus, buf
      ensures 0 < j <= COMMANDS_PER_FRAGMENT && i + j <= nBytes
      ensures bufPos == 64 * j + |x| && Tail(bus.pins, x, i + j == nBytes)
      ensures buf[..bufPos] == Samples(bus.pins, old(bus.out), CommandsBits(ReadCommands(addr, j))) + x
      ensures SameSamples(bus.pins, bus.out, old(bus.out))
    {
      hide Accounted, CommitsWith, Overwrite, Samples, CommandsBits, CommandBits, ReadCommand, SetBits;
      hide ReadCommands, SameSamples;
      ghost var whole, out0, pins := buf[..], bus.out, bus.pins;
      NoCommands(pins, out0, whole);
      bufPos, j := 0, 0;
      while j < COMMANDS_PER_FRAGMENT && i + j < nBytes
        invariant 0 <= j <= COMMANDS_PER_FRAGMENT && i + j <= nBytes && bufPos == 64 * j
        invariant buf[..] == Overwrite(whole, 0, Samples(pins, out0, CommandsBits(ReadCommands(addr, j))))
        invariant SameSamples(pins, bus.out, out0)
      {
        LastRead(addr, j);
        var k := AppendCommand(buf, bufPos, ReadCommand(addr + j), whole, out0, ReadCommands(addr, j));
        bufPos, j := bufPos + k, j + 1;
      }
      ghost var out1 := bus.out;
      x := ClockLow(buf, bufPos, i + j >= nBytes);
      SameSamplesTransitive(pins, bus.out, out1, out0);
      bufPos := bufPos + if i + j >= nBytes then 1 else 0;
    }

    /** The sample that takes the clock down after the last command. */
    method ClockLow(buf: array<bv8>, pos: nat, last: bool) returns (ghost x: seq<bv8>)
      requires ValidPins(bus.pins) && (last ==> pos < buf.Length) && pos <= buf.Length
      modifies bus, buf
      ensures Tail(bus.pins, x, last) && pos + |x| <= buf.Length
      ensures buf[..pos + |x|] == old(buf[..pos]) + x
      ensures SameSamples(bus.pins, bus.out, old(bus.out))
    {
      x := [];
      if last {
        ClockLowSameSamples(bus.pins, bus.out);
        PinHolds(bus.out, bus.pins.sck, false);
        bus.out := SetBits(bus.out, bus.pins.sck, false);
        buf[pos] := bus.out;
        x := [bus.out];
      }
    }

    /** The state of a flash read in progress: memory holds flash[start..done], and the
        queued requests cover flash[done..end]. */
    ghost predicate Reading(flash: seq<byte>, mem: array<byte>, mem0: seq<byte>, start: nat, done: nat, end: nat)
      reads this, link, queue, queue.queue, queue.pool, mem
    {
      && Valid() && link.reply == FlashReply(flash) && link.chip.bits == []
      && start <= done <= end <= |flash| <= 0x20000 && end <= mem.Length == |mem0|
      && mem[..] == Overwrite(mem0, start, flash[start..done])
      && Pending(bus.pins, flash, link.Waiting(), queue.entries, done, end)
    }

    /** do_request during a flash read. */
    method Serve(mem: array<byte>, ghost flash: seq<byte>, ghost mem0: seq<byte>,
                 ghost start: nat, ghost done: nat, ghost end: nat, ghost extra: nat)
      returns (served: bool, ghost done': nat)
      requires Reading(flash, mem, mem0, start, done, end)
      requires SmallEntries(queue.entries, extra) && extra <= 1
      modifies queue, queue.Nodes(), link`got, link`history, mem
      ensures queue.Nodes() == old(queue.Nodes())
      ensures Reading(flash, mem, mem0, start, done', end)
      ensures SmallEntries(queue.entries, extra)
      ensures served <==> old(queue.entries) != []
      ensures served ==> |queue.entries| == |old(queue.entries)| - 1
      ensures !served ==> queue.entries == [] && done' == end
    {
      hide Accounted, CommitsWith, Overwrite, Fetched, FlashReply, Extracted, Answers, RequestQueue.Valid;
      ghost var rs, entries := link.Waiting(), queue.entries;
      if entries != [] {
        HeadFits(bus.pins, flash, rs, entries, done, end);
      }
      ghost var vs;
      served, vs := DoRequest(mem);
      done' := done;
      if served {
        ServeFetched(bus.pins, flash, rs, entries, done, end, vs);
        done' := done + |vs|;
        PendingSizes(bus.pins, flash, link.Waiting(), queue.entries, done', end);
        OverwriteSlice(mem0, start, flash, done, done');
      }
    }

    /** ft245r_paged_load_flash: however the requests overlap, memory ends up equal to
        flash in the range asked for and unchanged elsewhere. */
    method PagedLoadFlash(mem: array<byte>, addr: nat, nBytes: nat, ghost flash: seq<byte>)
      requires Valid() && Idle() && link.reply == FlashReply(flash)
      requires addr + nBytes <= |flash| <= 0x20000 && addr + nBytes <= mem.Length
      modifies bus, link, queue, queue.Nodes(), mem
      ensures Valid() && Idle() && fresh(queue.Nodes() - old(queue.Nodes()))
      ensures mem[..] == Overwrite(old(mem[..]), addr, flash[addr..addr + nBytes])
      ensures link.chip.log == old(link.chip.log) + ReadCommands(addr, nBytes)
      ensures nBytes > 0 ==> !link.chip.sck
      ensures link.peak <= old(link.peak) || link.peak <= MAX_IN_FLIGHT
    {
      hide Accounted, CommitsWith, Overwrite, FlashReply, ReadCommand, Pending, SmallEntries, ValidPins, RequestQueue.Valid;
      ghost var mem0, log0, done := mem[..], link.chip.log, addr;
      OverwriteNothing(mem0, addr);
      NothingPending(bus.pins, flash, link.Waiting(), addr);
      var i, reqCount := 0, 0;
      while i < nBytes
        invariant 0 <= i <= nBytes
        invariant Reading(flash, mem, mem0, addr, done, addr + i)
        invariant fresh(queue.Nodes() - old(queue.Nodes()))
        invariant |queue.entries| == if reqCount < REQ_OUTSTANDINGS then reqCount else REQ_OUTSTANDINGS
        invariant SmallEntries(queue.entries, if i == nBytes then 1 else 0)
        invariant link.chip.log == log0 + ReadCommands(addr, i)
        invariant 0 < i == nBytes ==> !link.chip.sck
        invariant link.peak <= old(link.peak) || link.peak <= MAX_IN_FLIGHT
      {
        var j := QueueReads(mem, addr + i, i, nBytes, flash, mem0, addr, done);
        assert ReadCommands(addr, i + j) == ReadCommands(addr, i) + ReadCommands(addr + i, j);
        i := i + j;
        reqCount := reqCount + 1;
        if reqCount > REQ_OUTSTANDINGS {
          var served;
          served, done := Serve(mem, flash, mem0, addr, done, addr + i, if i == nBytes then 1 else 0);
        }
      }
      SmallEnough(queue.entries, if i == nBytes then 1 else 0);
      done := ServeAll(mem, flash, mem0, addr, done, addr + nBytes);
      AllServed(bus.pins, flash, link.Waiting(), done, addr + nBytes);
    }

    /** The loop `while (do_request(pgm, m));` at the end of a flash read. */
    method ServeAll(mem: array<byte>, ghost flash: seq<byte>, ghost mem0: seq<byte>, ghost start: nat, ghost done: nat, ghost end: nat)
      returns (ghost done': nat)
      requires Reading(flash, mem, mem0, start, done, end) && SmallEntries(queue.entries, 1)
      modifies queue, queue.Nodes(), link`got, link`history, mem
      ensures queue.Nodes() == old(queue.Nodes())
      ensures Reading(flash, mem, mem0, start, done', end) && queue.entries == [] && done' == end
    {
      hide Reading, SmallEntries, RequestQueue.Valid;
      done' := done;
      var served := true;
      while served
        invariant Reading(flash, mem, mem0, start, done', end) && SmallEntries(queue.entries, 1)
        invariant queue.Nodes() == old(queue.Nodes())
        invariant !served ==> queue.entries == [] && done' == end
        decreases served, |queue.entries|
      {
        served, done' := Serve(mem, flash, mem0, start, done', end, 1);
      }
    }

    /** The body of the outer loop of the flash read, up to put_request. */
    method QueueReads(mem: array<byte>, addr: nat, i: nat, nBytes: nat,
                      ghost flash: seq<byte>, ghost mem0: seq<byte>, ghost start: nat, ghost done: nat)
      returns (j: nat)
      requires i < nBytes && addr + (nBytes - i) <= |flash| && addr + (nBytes - i) <= mem.Length
      requires Reading(flash, mem, mem0, start, done, addr)
      requires |queue.entries| <= REQ_OUTSTANDINGS && SmallEntries(queue.entries, 0)
      modifies bus, link, queue, queue.Nodes()
      ensures 0 < j && i + j <= nBytes
      ensures Reading(flash, mem, mem0, start, done, addr + j)
      ensures fresh(queue.Nodes() - old(queue.Nodes()))
      ensures |queue.entries| == |old(queue.entries)| + 1
      ensures SmallEntries(queue.entries, if i + j == nBytes then 1 else 0)
      ensures link.chip.log == old(link.chip.log) + ReadCommands(addr, j)
      ensures i + j == nBytes ==> !link.chip.sck
      ensures link.peak <= old(link.peak) || link.peak <= MAX_IN_FLIGHT
    {
      hide Accounted, CommitsWith, Overwrite, Answers, ReadCommands, FlashReply, Pending, ValidPins, RequestQueue.Valid;
      ghost var rs0, entries0 := link.Waiting(), queue.entries;
      PendingSizes(bus.pins, flash, rs0, entries0, done, addr);
      SizesBound(entries0, 0);
      hide SmallEntries;
      var bufPos; ghost var rs;
      j, bufPos, rs := SendReads(addr, i, nBytes, flash);
      PendingAppend(bus.pins, flash, rs0, entries0, done, addr, rs, j);
      queue.Put(addr, bufPos, j);
      ReadQueued(entries0, Entry(addr, bufPos, j), if i + j == nBytes then 1 else 0);
    }

    /** The inner loop of the flash read and the sending of its samples. */
    method SendReads(addr: nat, i: nat, nBytes: nat, ghost flash: seq<byte>)
      returns (j: nat, bufPos: nat, ghost rs: seq<bv8>)
      requires link.Valid() && bus.pins == link.pins && link.reply == FlashReply(flash) && link.chip.bits == []
      requires i < nBytes && addr + (nBytes - i) <= |flash| <= 0x20000
      requires |link.Waiting()| <= REQ_OUTSTANDINGS * FRAGMENT_SIZE
      modifies bus, link
      ensures link.Valid() && link.chip.bits == []
      ensures 0 < j && i + j <= nBytes
      ensures bufPos == |rs| == 64 * j + (if i + j == nBytes then 1 else 0) && 64 * j <= FRAGMENT_SIZE
      ensures link.Waiting() == old(link.Waiting()) + rs && Answers(bus.pins, flash, rs, addr, j)
      ensures link.chip.log == old(link.chip.log) + ReadCommands(addr, j)
      ensures i + j == nBytes ==> !link.chip.sck
      ensures link.peak <= old(link.peak) || link.peak <= MAX_IN_FLIGHT
    {
      hide Accounted, Answers, Transcript, ChipRun, Samples, CommandsBits, ReadCommand, FlashReply, SameSamples, ValidPins;
      ghost var pins, out0, chip0 := bus.pins, bus.out, link.chip;
      var buf := new bv8[FRAGMENT_SIZE + 1];
      ghost var x;
      j, bufPos, x := ReadFragment(buf, addr, i, nBytes);
      ghost var r0 := |link.received|;
      link.Send(buf, bufPos);
      rs := link.received[r0..];
      ReadsAnswered(pins, flash, chip0, out0, addr, j, x, i + j == nBytes, rs);
    }

    /** ft245r_cmd: one command sent and its reply fetched at once, so nothing may be under way. */
    method Cmd(cmd: Command) returns (res: Command)
      requires Valid() && Idle()
      modifies bus, link
      ensures Valid() && Idle()
      ensures link.chip.log == old(link.chip.log) + [cmd]
      ensures Spelled(link.received, |old(link.received)|, res)
      ensures res.b3 == link.reply(cmd.b0, cmd.b1, cmd.b2)
      ensures link.peak <= old(link.peak) || link.peak <= MAX_IN_FLIGHT
    {
      hide Accounted, CommitsWith, Overwrite, CommandBits, ChipRun, Transcript, Extracted, RequestQueue.Valid, Samples;
      var buf := new bv8[128];
      ghost var out0, r0, rs := bus.out, |link.received|, [];
      var n;
      n, rs := Exchange(buf, cmd);
      var b0 := bus.ExtractData(buf, 0);
      var b1 := bus.ExtractData(buf, 1);
      var b2 := bus.ExtractData(buf, 2);
      var b3 := bus.ExtractData(buf, 3);
      res := Command(b0, b1, b2, b3);
      ExtractedFromPrefix(bus.pins, rs, buf[..], 0, b0);
      ExtractedFromPrefix(bus.pins, rs, buf[..], 1, b1);
      ExtractedFromPrefix(bus.pins, rs, buf[..], 2, b2);
      ExtractedFromPrefix(bus.pins, rs, buf[..], 3, b3);
      ExtractedIsUnique(bus.pins, rs, 3, b3, link.reply(cmd.b0, cmd.b1, cmd.b2));
    }

    /** The four bytes that the samples received from r0 on spell. */
    ghost predicate Spelled(received: seq<bv8>, r0: nat, res: Command) {
      && r0 + 64 <= |received|
      && var rs := received[r0..];
      && Extracted(bus.pins, rs, 0, res.b0) && Extracted(bus.pins, rs, 1, res.b1)
      && Extracted(bus.pins, rs, 2, res.b2) && Extracted(bus.pins, rs, 3, res.b3)
    }

    /** The sending and receiving half of ft245r_cmd. */
    method Exchange(buf: array<bv8>, cmd: Command) returns (n: nat, ghost rs: seq<bv8>)
      requires Valid() && Idle() && buf.Length == 128
      modifies bus, link, buf
      ensures Valid() && Idle() && n == 64
      ensures link.chip.log == old(link.chip.log) + [cmd]
      ensures |old(link.received)| <= |link.received| && rs == link.received[|old(link.received)|..]
      ensures |rs| == 65 && buf[..|rs|] == rs
      ensures Extracted(bus.pins, rs, 3, link.reply(cmd.b0, cmd.b1, cmd.b2))
      ensures link.peak <= old(link.peak) || link.peak <= MAX_IN_FLIGHT
    {
      hide Accounted, CommitsWith, Samples, Overwrite, CommandBits, ChipRun, Transcript, Extracted, RequestQueue.Valid;
      ghost var whole, out0, chip0 := buf[..], bus.out, link.chip;
      n := PutCommand(buf, 0, cmd);
      OneCommand(cmd);
      buf[n] := 0;
      assert buf[..n + 1] == Samples(bus.pins, out0, CommandsBits([cmd])) + [0];
      ghost var r0 := |link.received|;
      link.Send(buf, n + 1);
      rs := link.received[r0..];
      FragmentExecuted(bus.pins, link.reply, chip0, out0, [cmd], [0], rs);
      link.Recv(buf, n + 1);
    }

    /** avr_write_page on this programmer: the extended address, if the part has such a command,
        and the page write, both for the word address if the memory is word-addressed. */
    method WritePage(base: nat) returns (rc: int)
      requires Valid() && Idle()
      modifies bus, link
      ensures Valid() && Idle()
      ensures rc == if pageOp.Some? then 0 else -1
      ensures link.chip.log == old(link.chip.log) + if pageOp.Some? then pageOp.value(base) else []
      ensures link.peak <= old(link.peak) || link.peak <= MAX_IN_FLIGHT
    {
      hide Accounted, RequestQueue.Valid, Spelled, OpCommand;
      if opcodes.None? {
        return -1;
      }
      var ops := opcodes.value;
      var addr := if ops.wordAddressed then base / 2 else base;
      var cmd, res;
      if ops.loadExt.Some? {
        cmd := Assemble(ops.loadExt.value, addr);
        res := Cmd(cmd);
      }
      cmd := Assemble(ops.writePage, addr);
      res := Cmd(cmd);
      rc := 0;
    }

    /** One turn of the inner loop of the flash write: load commands up to eight
        bytes, the end of the page or the end of the data. */
    method WriteFragment(buf: array<bv8>, mem: array<byte>, addr: nat, i: nat, nBytes: nat, pageSize: nat)
      returns (j: nat, bufPos: nat, doPageWrite: bool, ghost x: seq<bv8>)
      requires ValidPins(bus.pins) && i < nBytes && addr + (nBytes - i) <= mem.Length
      requires buf.Length == FRAGMENT_SIZE + 1 + 128 && mem != buf && pageSize > 0
      modifies bus, buf
      ensures 0 < j <= COMMANDS_PER_FRAGMENT && i + j <= nBytes
      ensures doPageWrite <==> PageEnd(i + j, nBytes, pageSize)
      ensures forall k | i < k < i + j :: !PageEnd(k, nBytes, pageSize)
      ensures bufPos == 64 * j + |x| && Tail(bus.pins, x, i + j == nBytes)
      ensures buf[..bufPos] == Samples(bus.pins, old(bus.out), CommandsBits(LoadCommands(mem[..], addr, j))) + x
      ensures SameSamples(bus.pins, bus.out, old(bus.out))
    {
      hide Accounted, CommitsWith, Overwrite, Samples, CommandsBits, CommandBits, LoadCommand, SetBits, PageEnd;
      hide LoadCommands, SameSamples;
      ghost var whole, out0, pins, data := buf[..], bus.out, bus.pins, mem[..];
      NoCommands(pins, out0, whole);
      bufPos, j, doPageWrite := 0, 0, false;
      while j < COMMANDS_PER_FRAGMENT && !doPageWrite
        invariant 0 <= j <= COMMANDS_PER_FRAGMENT && i + j <= nBytes && bufPos == 64 * j
        invariant doPageWrite <==> j > 0 && PageEnd(i + j, nBytes, pageSize)
        invariant !doPageWrite ==> i + j < nBytes
        invariant forall k | i < k < i + j :: !PageEnd(k, nBytes, pageSize)
        invariant buf[..] == Overwrite(whole, 0, Samples(pins, out0, CommandsBits(LoadCommands(data, addr, j))))
        invariant SameSamples(pins, bus.out, out0)
        decreases COMMANDS_PER_FRAGMENT - j
      {
        var cmd := LoadCommand(addr + j, mem[addr + j]);
        LastLoad(data, addr, j);
        var k := AppendCommand(buf, bufPos, cmd, whole, out0, LoadCommands(data, addr, j));
        bufPos, j := bufPos + k, j + 1;
        AtEnd(i + j, nBytes, pageSize);
        if PageEnd(i + j, nBytes, pageSize) {
          doPageWrite := true;
        }
      }
      ghost var out1 := bus.out;
      x := ClockLow(buf, bufPos, i + j >= nBytes);
      SameSamplesTransitive(pins, bus.out, out1, out0);
      bufPos := bufPos + if i + j >= nBytes then 1 else 0;
    }

    /** The state of a flash write in progress: what is queued asks for no bytes, and
        its sizes add up to the samples sent and not yet fetched. */
    ghost predicate Writing(size: nat, extra: nat)
      reads this, link, queue, queue.queue, queue.pool
    {
      && Valid() && link.chip.bits == [] && extra <= 1
      && SumBytes(queue.entries) == |link.Waiting()|
      && SmallEntries(queue.entries, extra)
      && LoadEntries(queue.entries, size)
    }

    /** do_request during a flash write. */
    method Discard(mem: array<byte>, ghost extra: nat) returns (served: bool)
      requires Writing(mem.Length, extra)
      modifies queue, queue.Nodes(), link`got, link`history, mem
      ensures queue.Nodes() == old(queue.Nodes())
      ensures Writing(mem.Length, extra) && mem[..] == old(mem[..])
      ensures served <==> old(queue.entries) != []
      ensures served ==> |queue.entries| == |old(queue.entries)| - 1
      ensures !served ==> queue.entries == [] && link.Waiting() == []
    {
      hide Accounted, CommitsWith, Overwrite, Fetched, Extracted, RequestQueue.Valid;
      ghost var rs, entries := link.Waiting(), queue.entries;
      if entries != [] {
        SizesBound(entries[1..], extra);
      }
      ghost var vs;
      served, vs := DoRequest(mem);
      if served {
        NothingFetched(bus.pins, rs, entries[0], vs);
        OverwriteNothing(old(mem[..]), entries[0].addr);
      }
    }

    /** The loop `while (do_request(pgm, m));` during a flash write. */
    method Flush(mem: array<byte>, ghost extra: nat)
      requires Writing(mem.Length, extra)
      modifies queue, queue.Nodes(), link`got, link`history, mem
      ensures queue.Nodes() == old(queue.Nodes())
      ensures Writing(mem.Length, extra) && mem[..] == old(mem[..]) && Idle()
    {
      hide Accounted, CommitsWith, RequestQueue.Valid, SmallEntries, LoadEntries, ValidPins;
      var served := true;
      while served
        invariant Writing(mem.Length, extra) && mem[..] == old(mem[..])
        invariant queue.Nodes() == old(queue.Nodes())
        invariant !served ==> queue.entries == [] && link.Waiting() == []
        decreases served, |queue.entries|
      {
        served := Discard(mem, extra);
      }
    }

    /** The body of the outer loop of the flash write, up to put_request. */
    method QueueLoads(mem: array<byte>, addr: nat, i: nat, nBytes: nat, pageSize: nat)
      returns (j: nat, doPageWrite: bool)
      requires i < nBytes && addr + (nBytes - i) <= mem.Length && pageSize > 0
      requires Writing(mem.Length, 0) && |queue.entries| <= REQ_OUTSTANDINGS
      modifies bus, link, queue, queue.Nodes()
      ensures 0 < j && i + j <= nBytes
      ensures doPageWrite <==> PageEnd(i + j, nBytes, pageSize)
      ensures forall k | i < k < i + j :: !PageEnd(k, nBytes, pageSize)
      ensures Writing(mem.Length, if i + j == nBytes then 1 else 0)
      ensures fresh(queue.Nodes() - old(queue.Nodes()))
      ensures |queue.entries| == |old(queue.entries)| + 1
      ensures link.chip.log == old(link.chip.log) + LoadCommands(mem[..], addr, j)
      ensures link.peak <= old(link.peak) || link.peak <= MAX_IN_FLIGHT
    {
      hide Accounted, CommitsWith, Overwrite, Transcript, ChipRun, Samples, CommandsBits, LoadCommand, PageEnd, SameSamples, RequestQueue.Valid;
      ghost var out0, chip0, rs0, entries0 := bus.out, link.chip, link.Waiting(), queue.entries;
      SizesBound(entries0, 0);
      hide Accounted, CommitsWith, SmallEntries, LoadEntries;
      var buf := new bv8[FRAGMENT_SIZE + 1 + 128];
      var bufPos; ghost var x;
      j, bufPos, doPageWrite, x := WriteFragment(buf, mem, addr, i, nBytes, pageSize);
      ghost var r0 := |link.received|;
      link.Send(buf, bufPos);
      FragmentExecuted(bus.pins, link.reply, chip0, out0, LoadCommands(mem[..], addr, j), x, link.received[r0..]);
      queue.Put(addr, bufPos, 0);
      LoadQueued(entries0, Entry(addr, bufPos, 0), mem.Length, if i + j == nBytes then 1 else 0);
    }

    /** ft245r_paged_write_flash, for memories with pages: the device is told exactly
        what a write of one byte at a time would tell it, and every page is committed
        with nothing under way. */
    method PagedWriteFlash(mem: array<byte>, pageSize: nat, addr0: nat, nBytes: nat) returns (rc: int)
      requires Valid() && Idle() && pageSize > 0 && addr0 % pageSize == 0 && addr0 + nBytes <= mem.Length
      modifies bus, link, queue, queue.Nodes(), mem
      ensures Valid() && Idle() && fresh(queue.Nodes() - old(queue.Nodes()))
      ensures mem[..] == old(mem[..])
      ensures rc == if pageOp.Some? || nBytes == 0 then nBytes else -2
      ensures pageOp.Some? ==>
        link.chip.log == old(link.chip.log) + WriteLog(pageOp.value, mem[..], addr0, 0, nBytes, pageSize)
      ensures link.peak <= old(link.peak) || link.peak <= MAX_IN_FLIGHT
    {
      hide Accounted, CommitsWith, LoadCommand, PageEnd, BlockStart, SmallEntries, LoadEntries, ValidPins, RequestQueue.Valid, WriteLog, LoadCommands, Told;
      ghost var data, log0 := mem[..], link.chip.log;
      NoEntries(mem.Length);
      ToldNothing(log0, data, addr0, nBytes, pageSize);
      var i, addr, reqCount := 0, addr0, 0;
      while i < nBytes
        invariant 0 <= i <= nBytes && addr == addr0 + i
        invariant Writing(mem.Length, 0) && mem[..] == data
        invariant fresh(queue.Nodes() - old(queue.Nodes()))
        invariant |queue.entries| == if reqCount < REQ_OUTSTANDINGS then reqCount else REQ_OUTSTANDINGS
        invariant i == nBytes ==> Idle()
        invariant Told(log0, link.chip.log, data, addr0, i, nBytes, pageSize)
        invariant pageOp.None? ==> nBytes == 0 || i < nBytes
        invariant link.peak <= old(link.peak) || link.peak <= MAX_IN_FLIGHT
      {
        var addrSave := addr;
        ghost var before := link.chip.log;
        var j, doPageWrite := QueueLoads(mem, addr, i, nBytes, pageSize);
        ghost var extra := if i + j == nBytes then 1 else 0;
        ToldMore(log0, before, data, addr0, i, j, nBytes, pageSize);
        i, addr := i + j, addr + j;
        reqCount := reqCount + 1;
        if reqCount > REQ_OUTSTANDINGS {
          var served := Discard(mem, extra);
        }
        AtEnd(i, nBytes, pageSize);
        if doPageWrite {
          var ok := Commit(mem, BlockStart(addrSave, pageSize), extra);
          if ok != 0 {
            return -2;
          }
          reqCount := 0;
        }
      }
      ToldAll(log0, link.chip.log, data, addr0, nBytes, pageSize);
      Flush(mem, 0);
      rc := i;
    }

    /** Empties the queue and commits a page. */
    method Commit(mem: array<byte>, base: nat, ghost extra: nat) returns (rc: int)
      requires Writing(mem.Length, extra)
      modifies bus, link, queue, queue.Nodes(), mem
      ensures queue.Nodes() == old(queue.Nodes()) && mem[..] == old(mem[..])
      ensures Writing(mem.Length, 0) && Idle()
      ensures rc == if pageOp.Some? then 0 else -1
      ensures link.chip.log == old(link.chip.log) + if pageOp.Some? then pageOp.value(base) else []
      ensures link.peak <= old(link.peak) || link.peak <= MAX_IN_FLIGHT
    {
      hide Accounted, CommitsWith, SmallEntries, LoadEntries, ValidPins, RequestQueue.Valid;
      Flush(mem, extra);
      NoEntries(mem.Length);
      rc := WritePage(base);
    }

    /** What the device was told, and what it is still to be told, make the whole log. */
    ghost predicate Told(log0: seq<Command>, log: seq<Command>, data: seq<byte>, addr: nat, i: nat, n: nat, pageSize: nat)
      requires i <= n && addr + n <= |data| && pageSize > 0
    {
      pageOp.Some? ==>
        log0 + WriteLog(pageOp.value, data, addr, 0, n, pageSize) == log + WriteLog(pageOp.value, data, addr, i, n, pageSize)
    }

    lemma ToldMore(log0: seq<Command>, log: seq<Command>, data: seq<byte>, addr: nat, i: nat, j: nat, n: nat, pageSize: nat)
      requires 0 < j && i + j <= n && addr + n <= |data| && pageSize > 0 && addr % pageSize == 0
      requires forall k | i < k < i + j :: !PageEnd(k, n, pageSize)
      requires Told(log0, log, data, addr, i, n, pageSize)
      ensures var told := log + LoadCommands(data, addr + i, j);
        && (!PageEnd(i + j, n, pageSize) ==> Told(log0, told, data, addr, i + j, n, pageSize))
        && (PageEnd(i + j, n, pageSize) && pageOp.Some? ==>
              Told(log0, told + pageOp.value(BlockStart(addr + i, pageSize)), data, addr, i + j, n, pageSize))
    {
      hide Accounted, CommitsWith, WriteLog, LoadCommands, PageEnd, BlockStart;
      if pageOp.Some? {
        WriteLogOfFragment(pageOp.value, data, addr, i, j, n, pageSize);
      }
    }

    lemma ToldNothing(log0: seq<Command>, data: seq<byte>, addr: nat, n: nat, pageSize: nat)
      requires addr + n <= |data| && pageSize > 0
      ensures Told(log0, log0, data, addr, 0, n, pageSize)
    {
    }

    lemma ToldAll(log0: seq<Command>, log: seq<Command>, data: seq<byte>, addr: nat, n: nat, pageSize: nat)
      requires addr + n <= |data| && pageSize > 0 && Told(log0, log, data, addr, n, n, pageSize)
      ensures pageOp.Some? ==> log == log0 + WriteLog(pageOp.value, data, addr, 0, n, pageSize)
    {
      if pageOp.Some? {
        NothingLeft(data, addr, n, pageSize);
      }
    }

    lemma NothingLeft(data: seq<byte>, addr: nat, n: nat, pageSize: nat)
      requires addr + n <= |data| && pageSize > 0 && pageOp.Some?
      ensures WriteLog(pageOp.value, data, addr, n, n, pageSize) == []
    {
    }
  }

  lemma SmallEnough(entries: seq<Entry>, extra: nat)
    requires SmallEntries(entries, extra) && extra <= 1
    ensures SmallEntries(entries, 1)
  {
  }

  lemma ReadQueued(entries: seq<Entry>, e: Entry, extra: nat)
    requires SmallEntries(entries, 0) && 0 <= e.bytes <= FRAGMENT_SIZE + extra
    ensures SmallEntries(entries + [e], extra)
  {
  }

  lemma LoadQueued(entries: seq<Entry>, e: Entry, size: nat, extra: nat)
    requires SmallEntries(entries, 0) && LoadEntries(entries, size)
    requires e.n == 0 && 0 <= e.addr <= size && 0 <= e.bytes <= FRAGMENT_SIZE + extra
    ensures SmallEntries(entries + [e], extra) && LoadEntries(entries + [e], size)
    ensures SumBytes(entries + [e]) == SumBytes(entries) + e.bytes
  {
    SumBytesAppend(entries, [e]);
    assert SumBytes([e]) == e.bytes by {
      assert [e][1..] == [];
    }
  }

  lemma NoEntries(size: nat)
    ensures SmallEntries([], 0) && LoadEntries([], size) && SumBytes([]) == 0
  {
  }

  lemma AtEnd(k: nat, n: nat, pageSize: nat)
    requires pageSize > 0
    ensures k == n ==> PageEnd(k, n, pageSize)
  {
  }

  /** Whatever the threads do while the calls of this link are made, from the first to the last: the
      ring never fills, so the message is never due and head == tail means empty; every receive hands
      out the next samples; and the threads can go on until all calls are over.  The flash accesses
      keep the peak within the bound that this asks for. */
  lemma FlashAccessNeverFillsTheRing(link: Link, s: Pipe.Sys, steps: seq<Pipe.SysStep>, t: Pipe.Sys)
    requires link.Valid() && link.peak <= MAX_IN_FLIGHT
    requires Pipe.SysInitial(s) && Pipe.SysRuns(link.history, link.received, s, steps, t)
    ensures Pipe.Healthy(link.history, link.received, t)
    ensures |steps| <= 5 * |link.received| + 4 * link.got + |link.history|
    ensures Pipe.Finished(link.history, t) || exists step :: Pipe.SysEnabled(link.history, link.received, t, step)
    ensures Pipe.Finished(link.history, t) ==> t.ring.consumed == link.received[..link.got]
  {
    hide Pipe.Healthy, Pipe.Finished, Pipe.SysEnabled, Pipe.SysRuns, Pipe.SysInitial, Pipe.Bounded, Pipe.Sent, Pipe.Received;
    Pipe.EveryRunCompletes(link.history, link.received, link.peak, s, steps, t);
  }

  lemma NothingFetched(pins: Pins, rs: seq<bv8>, e: Entry, vs: seq<byte>)
    requires Fetched(pins, rs, e, vs) && e.n == 0
    ensures vs == []
  {
  }

  lemma OneCommand(cmd: Command)
    ensures CommandsBits([cmd]) == CommandBits(cmd)
  {
    assert CommandsBits([cmd][1..]) == [];
  }

  lemma HeadFits(pins: Pins, flash: seq<byte>, rs: seq<bv8>, entries: seq<Entry>, addr: nat, end: nat)
    requires entries != [] && Pending(pins, flash, rs, entries, addr, end)
    ensures var e := entries[0]; e.addr == addr && 0 <= e.n && addr + e.n <= end && 64 * e.n <= e.bytes <= |rs|
  {
    var e := entries[0];
    PendingSizes(pins, flash, rs[e.bytes..], entries[1..], addr + e.n, end);
  }

  lemma ServeFetched(pins: Pins, flash: seq<byte>, rs: seq<bv8>, entries: seq<Entry>, addr: nat, end: nat, vs: seq<byte>)
    requires entries != [] && Pending(pins, flash, rs, entries, addr, end)
    requires Fetched(pins, rs, entries[0], vs)
    ensures entries[0].addr == addr && addr + |vs| <= |flash| && vs == flash[addr..addr + |vs|]
    ensures Pending(pins, flash, rs[entries[0].bytes..], entries[1..], addr + |vs|, end)
  {
    ServeHead(pins, flash, rs, entries, addr, end, vs);
  }

  lemma NoCommands(pins: Pins, out: bv8, whole: seq<bv8>)
    ensures Overwrite(whole, 0, Samples(pins, out, CommandsBits([]))) == whole
    ensures SameSamples(pins, out, out)
  {
    OverwriteNothing(whole, 0);
  }

  /** The samples that come back for a fragment of reads spell the flash content. */
  lemma ReadsAnswered(pins: Pins, flash: seq<byte>, c: Chip, out: bv8, addr: nat, n: nat, x: seq<bv8>, last: bool, rs: seq<bv8>)
    requires ValidPins(pins) && c.bits == [] && 0 < n && addr + n <= |flash| <= 0x20000 && Tail(pins, x, last)
    requires Transcript(pins, FlashReply(flash), c, Samples(pins, out, CommandsBits(ReadCommands(addr, n))) + x, rs)
    ensures Answers(pins, flash, rs, addr, n) && |rs| == 64 * n + |x|
    ensures var c' := ChipRun(pins, FlashReply(flash), c, Samples(pins, out, CommandsBits(ReadCommands(addr, n))) + x);
      && c'.bits == [] && c'.log == c.log + ReadCommands(addr, n)
      && (last ==> !c'.sck)
  {
    hide Extracted, Samples, CommandsBits, ReadCommand, FlashReply, Transcript, ChipRun;
    var cmds := ReadCommands(addr, n);
    FragmentExecuted(pins, FlashReply(flash), c, out, cmds, x, rs);
    forall j: nat | j < n ensures Extracted(pins, rs, 4 * j + 3, flash[addr + j]) {
      assert cmds[j] == ReadCommand(addr + j);
      ReadCommandAnswer(flash, addr + j);
    }
  }
}
