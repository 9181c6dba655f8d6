/** The device at the other end of a flash write: it decodes the commands it receives by their bytes,
    keeps a page buffer, and ANDs the buffer into flash when a page write arrives. */
module Ft245rDevice {
  import opened Ft245rSpi
  import opened Ft245rQueue
  import opened Ft245rFlash
  import opened BitMask
  import opened ByteBits
  import opened ByteWords
  import opened Division
  import opened Options
  import Opcode
  import AvrMemory
  import opened AvrWrite

  // ----- the device

  /** The word that the second and third byte of a command address. */
  function WordOf(c: Command): (w: nat)
    ensures w < 0x1_0000
  {
    Num(c.b1) * 256 + Num(c.b2)
  }

  /** Low and high byte of a word for the page buffer, or a page write; all other commands leave
      flash and page buffer alone. */
  function Decoded(c: Command): Option<Event> {
    if c.b0 == 0x40 then Some(Load(2 * WordOf(c), c.b3, true))
    else if c.b0 == 0x48 then Some(Load(2 * WordOf(c) + 1, c.b3, true))
    else if c.b0 == 0x4c then Some(Event.Commit(2 * WordOf(c)))
    else None
  }

  /** Addresses outside the flash have no effect. */
  function Execute(d: Device, c: Command, pageSize: nat): (r: Device)
    requires ValidDevice(d, pageSize)
    ensures ValidDevice(r, pageSize) && |r.flash| == |d.flash|
  {
    var e := Decoded(c);
    if e.Some? && e.value.addr < |d.flash| then Apply(d, e.value, pageSize) else d
  }

  function ExecuteAll(d: Device, cmds: seq<Command>, pageSize: nat): (r: Device)
    requires ValidDevice(d, pageSize)
    ensures ValidDevice(r, pageSize) && |r.flash| == |d.flash|
    decreases |cmds|
  {
    if cmds == [] then d else ExecuteAll(Execute(d, cmds[0], pageSize), cmds[1..], pageSize)
  }

  lemma {:induction false} ExecuteAppend(d: Device, a: seq<Command>, b: seq<Command>, pageSize: nat)
    requires ValidDevice(d, pageSize)
    ensures ExecuteAll(d, a + b, pageSize) == ExecuteAll(ExecuteAll(d, a, pageSize), b, pageSize)
    decreases |a|
  {
    hide Execute;
    if a == [] {
      assert a + b == b;
    } else {
      assert (a + b)[1..] == a[1..] + b;
      ExecuteAppend(Execute(d, a[0], pageSize), a[1..], b, pageSize);
    }
  }

  lemma ExecuteOne(d: Device, c: Command, pageSize: nat)
    requires ValidDevice(d, pageSize)
    ensures ExecuteAll(d, [c], pageSize) == Execute(d, c, pageSize)
  {
    hide Execute;
    assert [c][1..] == [];
  }

  /** A load command puts the byte where its address is in the page. */
  lemma LoadExecuted(d: Device, addr: nat, data: byte, pageSize: nat)
    requires ValidDevice(d, pageSize) && addr < |d.flash| <= 0x20000
    ensures Execute(d, LoadCommand(addr, data), pageSize) == d.(page := d.page[addr % pageSize := data])
  {
    hide LoadCommand, WordOf;
    LoadDecoded(addr, data);
    assert 2 * (addr / 2) + addr % 2 == addr;
  }

  lemma LoadDecoded(addr: nat, data: byte)
    requires addr < 0x20000
    ensures var c := LoadCommand(addr, data);
      c.b0 == (if addr % 2 == 1 then 0x48 else 0x40) && WordOf(c) == addr / 2 && c.b3 == data
  {
    var high, low := addr / 512 % 256, addr / 2 % 256;
    NumOfByte(high);
    NumOfByte(low);
    hide Num;
    WordAddress(addr);
  }

  // ----- which instructions write a page

  /** Bit i of the command that the driver makes of an instruction and an address. */
  predicate CommandBit(op: seq<Opcode.OpBit>, addr: nat, i: nat)
    requires Opcode.ValidOp(op) && i < 32
  {
    (op[i].kind == Opcode.Value && op[i].value != 0)
    || (op[i].kind == Opcode.Address && addr / Pow2(op[i].bitno) % 2 == 1)
  }

  predicate FirstByteIs(op: seq<Opcode.OpBit>, addr: nat, first: byte)
    requires Opcode.ValidOp(op)
  {
    forall j | 0 <= j < 8 :: CommandBit(op, addr, 24 + j) == Opcode.Bit(first, j)
  }

  predicate WordIs(op: seq<Opcode.OpBit>, addr: nat, word: nat)
    requires Opcode.ValidOp(op)
  {
    forall j: nat | j < 16 :: CommandBit(op, addr, 8 + j) <==> word / Pow2(j) % 2 == 1
  }

  /** The instructions of the part make a page write for the page at base of the driver's address. */
  predicate WritesPage(ops: PageOpcodes, base: nat)
    requires ValidOpcodes(ops)
  {
    var addr := if ops.wordAddressed then base / 2 else base;
    && FirstByteIs(ops.writePage, addr, 0x4c) && WordIs(ops.writePage, addr, base / 2)
    && (ops.loadExt.Some? ==> FirstByteIs(ops.loadExt.value, addr, 0x4d))
  }

  /** They do for a word-addressed memory with the usual layout: 0x4c, address bits lo to hi - 1 at
      their places, all others 0, pages of 2^lo words, and less than 2^hi words. */
  lemma {:induction false} UsualPageWrite(op: seq<Opcode.OpBit>, lo: nat, hi: nat, word: nat)
    requires Opcode.ValidOp(op) && lo <= hi <= 16
    requires forall i | 24 <= i < 32 :: op[i].kind == Opcode.Value && (op[i].value != 0 <==> Opcode.Bit(0x4c, i - 24))
    requires forall i | 8 <= i < 24 ::
      if lo <= i - 8 < hi then op[i].kind == Opcode.Address && op[i].bitno == i - 8
      else op[i].kind == Opcode.Ignore || (op[i].kind == Opcode.Value && op[i].value == 0)
    requires word % Pow2(lo) == 0 && word < Pow2(hi)
    ensures WritesPage(PageOpcodes(op, None, true), 2 * word)
  {
    hide Pow2, Opcode.Bit;
    forall j: nat | j < 16
      ensures CommandBit(op, word, 8 + j) <==> word / Pow2(j) % 2 == 1
    {
      if j < lo {
        NoLowDigits(word, lo, j);
      } else if j >= hi {
        Pow2Grows(hi, j);
        NoHighDigits(word, j);
      }
    }
  }

  lemma OpCommandBit(op: seq<Opcode.OpBit>, addr: nat, i: nat)
    requires Opcode.ValidOp(op) && i < 32
    ensures var c := OpCommand(op, addr); Opcode.CmdBit([c.b0, c.b1, c.b2, c.b3], i) <==> CommandBit(op, addr, i)
  {
    hide Opcode.Set, Opcode.CmdBit, Pow2, Num;
    var zero: seq<bv8> := [0, 0, 0, 0];
    var cmd := Opcode.Set(op, Opcode.Addr(addr), Opcode.Set(op, Opcode.Values, zero));
    var c := OpCommand(op, addr);
    assert [c.b0, c.b1, c.b2, c.b3] == cmd;
    Opcode.SetBit(op, Opcode.Addr(addr), Opcode.Set(op, Opcode.Values, zero), i);
    Opcode.SetBit(op, Opcode.Values, zero, i);
    ZeroCommand(i);
  }

  lemma ZeroCommand(i: nat)
    requires i < 32
    ensures !Opcode.CmdBit([0, 0, 0, 0], i)
  {
    hide Opcode.Bit;
    Opcode.ZeroBit(i % 8);
  }

  lemma FirstByte(op: seq<Opcode.OpBit>, addr: nat, first: byte)
    requires Opcode.ValidOp(op) && FirstByteIs(op, addr, first)
    ensures OpCommand(op, addr).b0 == first
  {
    hide Opcode.Bit, OpCommand, CommandBit;
    var c := OpCommand(op, addr);
    forall j | 0 <= j < 8
      ensures Opcode.Bit(c.b0, j) == Opcode.Bit(first, j)
    {
      OpCommandBit(op, addr, 24 + j);
      assert (24 + j) / 8 == 3 && (24 + j) % 8 == j;
    }
    Opcode.BitsMakeByte(c.b0, first);
  }

  lemma WordBytesOf(op: seq<Opcode.OpBit>, addr: nat, word: nat)
    requires Opcode.ValidOp(op) && WordIs(op, addr, word) && word < 0x1_0000
    ensures WordOf(OpCommand(op, addr)) == word
  {
    hide Opcode.Bit, OpCommand, CommandBit, Pow2, Num, WordOf;
    var c := OpCommand(op, addr);
    var x := WordOf(c);
    forall j: nat | j < 16
      ensures x / Pow2(j) % 2 == word / Pow2(j) % 2
    {
      OpCommandBit(op, addr, 8 + j);
      WordDigit(c, j);
      assert CommandBit(op, addr, 8 + j) <==> word / Pow2(j) % 2 == 1;
    }
    SixteenBits();
    DigitsDetermine(x, word, 16);
  }

  lemma SixteenBits()
    ensures Pow2(16) == 0x1_0000
  {
    OctetPowers();
    assert Pow2(12) == 0x1000;
  }

  lemma WordDigit(c: Command, j: nat)
    requires j < 16
    ensures WordOf(c) / Pow2(j) % 2 == 1 <==> Opcode.CmdBit([c.b0, c.b1, c.b2, c.b3], 8 + j)
  {
    hide Opcode.Bit, Pow2, Num;
    DigitOfOctets(Num(c.b1), Num(c.b2), j);
    Opcode.BitIsDigit(c.b2, j);
    if j >= 8 {
      Opcode.BitIsDigit(c.b1, j - 8);
    }
    assert (8 + j) / 8 == (if j < 8 then 1 else 2) && (8 + j) % 8 == if j < 8 then j else j - 8;
  }

  /** The commands for a page commit that page, whatever is in the buffer. */
  lemma PageCommitted(d: Device, ops: PageOpcodes, base: nat, pageSize: nat)
    requires ValidDevice(d, pageSize) && base < |d.flash| <= 0x20000 && base % 2 == 0
    requires ValidOpcodes(ops) && WritesPage(ops, base)
    ensures ExecuteAll(d, PageCommands(ops, base), pageSize) == Apply(d, Event.Commit(base), pageSize)
  {
    hide OpCommand, Opcode.Bit, Apply, CommandBit, Pow2, WordOf, ExecuteAll;
    var addr := if ops.wordAddressed then base / 2 else base;
    var commit := OpCommand(ops.writePage, addr);
    FirstByte(ops.writePage, addr, 0x4c);
    WordBytesOf(ops.writePage, addr, base / 2);
    ExecuteOne(d, commit, pageSize);
    if ops.loadExt.Some? {
      var ext := OpCommand(ops.loadExt.value, addr);
      FirstByte(ops.loadExt.value, addr, 0x4d);
      ExecuteOne(d, ext, pageSize);
      ExecuteAppend(d, [ext], [commit], pageSize);
    } else {
      assert PageCommands(ops, base) == [commit];
    }
  }

  // ----- what a paged write leaves

  /** In every page that the write reaches, the instructions of the part make a page write. */
  ghost predicate WritesPages(ops: PageOpcodes, addr: nat, n: nat, pageSize: nat)
    requires ValidOpcodes(ops) && pageSize > 0
  {
    forall base: nat | addr <= base < addr + n && base % pageSize == 0 :: WritesPage(ops, base)
  }

  /** flash is flash0 with data ANDed in from lo to hi. */
  predicate Holds(flash0: seq<byte>, data: seq<byte>, lo: nat, hi: nat, flash: seq<byte>)
    requires hi <= |data|
  {
    && |flash| == |flash0|
    && forall x | 0 <= x < |flash0| ::
         flash[x] == if lo <= x < hi then AvrMemory.And(flash0[x], data[x]) else flash0[x]
  }

  /** The page buffer holds data from base on, k bytes of it. */
  predicate Buffered(data: seq<byte>, base: nat, k: nat, page: seq<byte>)
    requires base + k <= |data|
  {
    forall y | 0 <= y < |page| :: page[y] == if y < k then data[base + y] else 0xff
  }

  /** After i bytes: whole pages are in flash, the rest of the bytes in the page buffer. */
  ghost predicate Reached(flash0: seq<byte>, data: seq<byte>, addr: nat, i: nat, pageSize: nat, d: Device) {
    && pageSize > 0 && |d.flash| == |flash0| && addr + i <= |data| && i % pageSize <= i
    && Holds(flash0, data, addr, addr + i - i % pageSize, d.flash)
    && Buffered(data, addr + i - i % pageSize, i % pageSize, d.page)
  }

  lemma BufferMore(data: seq<byte>, base: nat, k: nat, page: seq<byte>)
    requires base + k < |data| && k < |page| && Buffered(data, base, k, page)
    ensures Buffered(data, base, k + 1, page[k := data[base + k]])
  {
  }

  lemma BufferErased(data: seq<byte>, base: nat, pageSize: nat)
    requires base <= |data|
    ensures Buffered(data, base, 0, ErasedPage(pageSize))
  {
  }

  lemma PageHeld(flash0: seq<byte>, data: seq<byte>, lo: nat, base: nat, k: nat, flash: seq<byte>, page: seq<byte>)
    requires lo <= base && base + k <= |data| && k <= |page| && base + |page| <= |flash|
    requires Holds(flash0, data, lo, base, flash) && Buffered(data, base, k, page)
    ensures Holds(flash0, data, lo, base + k, Programmed(flash, base, page))
  {
    hide AvrMemory.And;
    forall x | 0 <= x < |flash0|
      ensures Programmed(flash, base, page)[x] ==
        if lo <= x < base + k then AvrMemory.And(flash0[x], data[x]) else flash0[x]
    {
      AllOnesIsNeutral(flash0[x]);
    }
  }

  /** Byte i is in the page buffer too. */
  ghost predicate Filled(flash0: seq<byte>, data: seq<byte>, addr: nat, i: nat, pageSize: nat, d: Device) {
    && pageSize > 0 && |d.flash| == |flash0| && addr + i < |data| && i % pageSize <= i
    && Holds(flash0, data, addr, addr + i - i % pageSize, d.flash)
    && Buffered(data, addr + i - i % pageSize, i % pageSize + 1, d.page)
  }

  lemma ByteLoaded(flash0: seq<byte>, data: seq<byte>, addr: nat, i: nat, pageSize: nat, d: Device)
    requires pageSize > 0 && addr % pageSize == 0 && addr + i < |data| && addr + i < |flash0| <= 0x20000
    requires ValidDevice(d, pageSize) && Reached(flash0, data, addr, i, pageSize, d)
    ensures Filled(flash0, data, addr, i, pageSize, Execute(d, LoadCommand(addr + i, data[addr + i]), pageSize))
  {
    hide LoadCommand, Execute, Holds, Buffered;
    LoadExecuted(d, addr + i, data[addr + i], pageSize);
    InBlock(addr, i, pageSize);
    BufferMore(data, addr + i - i % pageSize, i % pageSize, d.page);
  }

  /** The page of byte i committed. */
  lemma PageDone(ops: PageOpcodes, flash0: seq<byte>, data: seq<byte>, addr: nat, i: nat, n: nat, pageSize: nat, d: Device)
    requires ValidOpcodes(ops) && pageSize > 0 && pageSize % 2 == 0 && addr % pageSize == 0 && i < n
    requires addr + n <= |data| && addr + n <= |flash0| <= 0x20000 && WritesPages(ops, addr, n, pageSize)
    requires ValidDevice(d, pageSize) && Filled(flash0, data, addr, i, pageSize, d)
    ensures var d' := ExecuteAll(d, PageCommands(ops, BlockStart(addr + i, pageSize)), pageSize);
      d'.page == ErasedPage(pageSize) && Holds(flash0, data, addr, addr + i + 1, d'.flash)
  {
    hide PageCommands, ExecuteAll, Programmed, WritesPage, Holds, Buffered, BlockStart;
    var base := addr + i - i % pageSize;
    InBlock(addr, i, pageSize);
    EvenBase(base, pageSize);
    PageCommitted(d, ops, base, pageSize);
    OwnBlock(base, pageSize);
    BlockFits(base, pageSize, |flash0|);
    PageHeld(flash0, data, addr, base, i % pageSize + 1, d.flash, d.page);
  }

  lemma OwnBlock(base: nat, pageSize: nat)
    requires pageSize > 0 && base % pageSize == 0
    ensures BlockStart(base, pageSize) == base
  {
  }

  /** One byte loaded, and its page committed if it is the last of it. */
  lemma OneByte(ops: PageOpcodes, flash0: seq<byte>, data: seq<byte>, addr: nat, i: nat, n: nat, pageSize: nat, d: Device)
    requires ValidOpcodes(ops) && pageSize > 0 && pageSize % 2 == 0 && addr % pageSize == 0 && i < n
    requires addr + n <= |data| && addr + n <= |flash0| <= 0x20000 && WritesPages(ops, addr, n, pageSize)
    requires ValidDevice(d, pageSize) && Reached(flash0, data, addr, i, pageSize, d)
    ensures var base := BlockStart(addr + i, pageSize);
      var cmds := [LoadCommand(addr + i, data[addr + i])]
        + if Ft245rFlash.PageEnd(i + 1, n, pageSize) then PageCommands(ops, base) else [];
      var d' := ExecuteAll(d, cmds, pageSize);
      && (i + 1 < n ==> Reached(flash0, data, addr, i + 1, pageSize, d'))
      && (i + 1 == n ==> d'.page == ErasedPage(pageSize) && Holds(flash0, data, addr, addr + n, d'.flash))
  {
    hide LoadCommand, PageCommands, Execute, ExecuteAll, WritesPages, Holds, Buffered, BlockStart, Reached;
    var load := LoadCommand(addr + i, data[addr + i]);
    ByteLoaded(flash0, data, addr, i, pageSize, d);
    ExecuteOne(d, load, pageSize);
    var loaded := Execute(d, load, pageSize);
    if Ft245rFlash.PageEnd(i + 1, n, pageSize) {
      var commit := PageCommands(ops, BlockStart(addr + i, pageSize));
      PageDone(ops, flash0, data, addr, i, n, pageSize, loaded);
      ExecuteAppend(d, [load], commit, pageSize);
      if i + 1 < n {
        NextPage(flash0, data, addr, i, pageSize, ExecuteAll(loaded, commit, pageSize));
      }
    } else {
      assert [load] + [] == [load];
      SamePageGoesOn(flash0, data, addr, i, pageSize, loaded);
    }
  }

  lemma NextPage(flash0: seq<byte>, data: seq<byte>, addr: nat, i: nat, pageSize: nat, d: Device)
    requires pageSize > 0 && (i + 1) % pageSize == 0 && addr + i + 1 <= |data| && |d.flash| == |flash0|
    requires d.page == ErasedPage(pageSize) && Holds(flash0, data, addr, addr + i + 1, d.flash)
    ensures Reached(flash0, data, addr, i + 1, pageSize, d)
  {
    hide Holds, Buffered;
    BufferErased(data, addr + i + 1, pageSize);
  }

  lemma SamePageGoesOn(flash0: seq<byte>, data: seq<byte>, addr: nat, i: nat, pageSize: nat, d: Device)
    requires pageSize > 0 && (i + 1) % pageSize != 0 && Filled(flash0, data, addr, i, pageSize, d)
    ensures Reached(flash0, data, addr, i + 1, pageSize, d)
  {
    hide Holds, Buffered;
    NextInBlock(i, pageSize);
  }

  lemma InBlock(addr: nat, i: nat, pageSize: nat)
    requires pageSize > 0 && addr % pageSize == 0
    ensures i % pageSize <= i && (addr + i) % pageSize == i % pageSize
    ensures BlockStart(addr + i, pageSize) == addr + i - i % pageSize && (addr + i - i % pageSize) % pageSize == 0
  {
    assert addr == pageSize * (addr / pageSize);
    AddMultiple(pageSize, addr / pageSize, i);
    AddMultiple(pageSize, addr / pageSize, i - i % pageSize);
    assert i == pageSize * (i / pageSize) + i % pageSize;
    AddMultiple(pageSize, i / pageSize, 0);
    Unique(0, pageSize, 0, 0);
  }

  lemma EvenBase(base: nat, pageSize: nat)
    requires pageSize > 0 && pageSize % 2 == 0 && base % pageSize == 0
    ensures base % 2 == 0
  {
    var h, q := pageSize / 2, base / pageSize;
    assert base == pageSize * q;
    assert (2 * h) * q == 2 * (h * q);
  }

  /** The whole log, from byte i on. */
  lemma {:induction false} LogExecuted(ops: PageOpcodes, commit: nat -> seq<Command>, flash0: seq<byte>, data: seq<byte>,
                                       addr: nat, i: nat, n: nat, pageSize: nat, d: Device)
    requires ValidOpcodes(ops) && forall base: nat :: commit(base) == PageCommands(ops, base)
    requires pageSize > 0 && pageSize % 2 == 0 && addr % pageSize == 0 && i < n
    requires addr + n <= |data| && addr + n <= |flash0| <= 0x20000 && WritesPages(ops, addr, n, pageSize)
    requires ValidDevice(d, pageSize) && Reached(flash0, data, addr, i, pageSize, d)
    ensures var d' := ExecuteAll(d, WriteLog(commit, data, addr, i, n, pageSize), pageSize);
      d'.page == ErasedPage(pageSize) && Holds(flash0, data, addr, addr + n, d'.flash)
    decreases n - i
  {
    hide LoadCommand, PageCommands, ExecuteAll, Holds, Reached, WritesPages, BlockStart, Ft245rFlash.PageEnd, WriteLog;
    var base := BlockStart(addr + i, pageSize);
    var cmds := [LoadCommand(addr + i, data[addr + i])]
      + if Ft245rFlash.PageEnd(i + 1, n, pageSize) then PageCommands(ops, base) else [];
    OneByte(ops, flash0, data, addr, i, n, pageSize, d);
    WriteLogFirst(commit, data, addr, i, n, pageSize);
    var later := WriteLog(commit, data, addr, i + 1, n, pageSize);
    assert WriteLog(commit, data, addr, i, n, pageSize) == cmds + later;
    ExecuteAppend(d, cmds, later, pageSize);
    var d1 := ExecuteAll(d, cmds, pageSize);
    if i + 1 == n {
      NothingMore(commit, data, addr, n, pageSize);
      NothingExecuted(d1, pageSize);
    } else {
      LogExecuted(ops, commit, flash0, data, addr, i + 1, n, pageSize, d1);
    }
  }

  lemma NothingMore(commit: nat -> seq<Command>, data: seq<byte>, addr: nat, n: nat, pageSize: nat)
    requires addr + n <= |data| && pageSize > 0
    ensures WriteLog(commit, data, addr, n, n, pageSize) == []
  {
  }

  lemma NothingExecuted(d: Device, pageSize: nat)
    requires ValidDevice(d, pageSize)
    ensures ExecuteAll(d, [], pageSize) == d
  {
  }

  // ----- programmer and device together

  /** ft245r_paged_write_flash at a device: each byte asked for is ANDed into its own byte of flash,
      all other bytes keep their value, and the page buffer is left erased. */
  method WriteFlash(pgm: Ft245rFlash.Programmer, mem: array<byte>, pageSize: nat, addr0: nat, nBytes: nat, d: Device)
    returns (d': Device)
    requires pgm.Valid() && pgm.Idle() && pgm.opcodes.Some? && 0 < pageSize && pageSize % 2 == 0 && addr0 % pageSize == 0
    requires ValidOpcodes(pgm.opcodes.value) && WritesPages(pgm.opcodes.value, addr0, nBytes, pageSize)
    requires ValidDevice(d, pageSize) && d.page == ErasedPage(pageSize)
    requires addr0 + nBytes <= |d.flash| <= 0x20000 && addr0 + nBytes <= mem.Length
    modifies pgm.bus, pgm.link, pgm.queue, pgm.queue.Nodes(), mem
    ensures pgm.Valid() && pgm.Idle() && fresh(pgm.queue.Nodes() - old(pgm.queue.Nodes())) && mem[..] == old(mem[..])
    ensures old(pgm.link.chip.log) <= pgm.link.chip.log
    ensures d' == ExecuteAll(d, pgm.link.chip.log[|old(pgm.link.chip.log)|..], pageSize)
    ensures d'.page == ErasedPage(pageSize) && |d'.flash| == |d.flash|
    ensures forall x | 0 <= x < |d.flash| ::
      d'.flash[x] == if addr0 <= x < addr0 + nBytes then AvrMemory.And(d.flash[x], mem[x]) else d.flash[x]
  {
    hide ExecuteAll, WritesPages, WriteLog, Ft245rFlash.Programmer.Valid, Ft245rFlash.Programmer.Idle;
    ghost var log0, data := pgm.link.chip.log, mem[..];
    var already := |pgm.link.chip.log|;
    var rc := pgm.PagedWriteFlash(mem, pageSize, addr0, nBytes);
    Instructions(pgm);
    WriteExecuted(pgm.opcodes, pgm.pageOp, data, addr0, nBytes, pageSize, d);
    d' := ExecuteAll(d, pgm.link.chip.log[already..], pageSize);
    assert pgm.link.chip.log[already..] == WriteLog(pgm.pageOp.value, data, addr0, 0, nBytes, pageSize);
  }

  lemma Instructions(pgm: Ft245rFlash.Programmer)
    requires pgm.Valid()
    ensures CommitsWith(pgm.opcodes, pgm.pageOp) && (pgm.opcodes.Some? ==> ValidOpcodes(pgm.opcodes.value))
  {
  }

  lemma WriteExecuted(opcodes: Option<PageOpcodes>, pageOp: PageOp, data: seq<byte>, addr: nat, n: nat, pageSize: nat, d: Device)
    requires 0 < pageSize && pageSize % 2 == 0 && addr % pageSize == 0 && addr + n <= |data|
    requires opcodes.Some? && CommitsWith(opcodes, pageOp) && WritesPages(opcodes.value, addr, n, pageSize)
    requires ValidDevice(d, pageSize) && d.page == ErasedPage(pageSize) && addr + n <= |d.flash| <= 0x20000
    ensures var d' := ExecuteAll(d, WriteLog(pageOp.value, data, addr, 0, n, pageSize), pageSize);
      d'.page == ErasedPage(pageSize) && Holds(d.flash, data, addr, addr + n, d'.flash)
  {
    hide ExecuteAll, WritesPages, WriteLog, PageCommands;
    if n == 0 {
      NothingMore(pageOp.value, data, addr, 0, pageSize);
      NothingExecuted(d, pageSize);
    } else {
      Unique(0, pageSize, 0, 0);
      LogExecuted(opcodes.value, pageOp.value, d.flash, data, addr, 0, n, pageSize, d);
    }
  }

  /** The flash written and read back, the device answering with the flash as the write left it: on
      erased flash the bytes that come back are those of the image. */
  method WriteThenRead(pgm: Ft245rFlash.Programmer, mem: array<byte>, back: array<byte>, pageSize: nat,
                       addr0: nat, nBytes: nat, d: Device) returns (d': Device)
    requires pgm.Valid() && pgm.Idle() && pgm.opcodes.Some? && 0 < pageSize && pageSize % 2 == 0 && addr0 % pageSize == 0
    requires ValidOpcodes(pgm.opcodes.value) && WritesPages(pgm.opcodes.value, addr0, nBytes, pageSize)
    requires ValidDevice(d, pageSize) && d.page == ErasedPage(pageSize)
    requires addr0 + nBytes <= |d.flash| <= 0x20000
    requires addr0 + nBytes <= mem.Length && addr0 + nBytes <= back.Length && back != mem
    modifies pgm.bus, pgm.link, pgm.queue, pgm.queue.Nodes(), mem, back
    ensures mem[..] == old(mem[..])
    ensures forall x | 0 <= x < back.Length ::
      back[x] == if addr0 <= x < addr0 + nBytes then AvrMemory.And(d.flash[x], mem[x]) else old(back[x])
    ensures (forall x | addr0 <= x < addr0 + nBytes :: d.flash[x] == 0xff) ==>
      back[addr0..addr0 + nBytes] == mem[addr0..addr0 + nBytes]
  {
    hide ExecuteAll, WritesPages, AvrMemory.And, Ft245rFlash.Programmer.Valid, Ft245rFlash.Programmer.Idle, Overwrite;
    ghost var image, back0 := mem[..], back[..];
    d' := WriteFlash(pgm, mem, pageSize, addr0, nBytes, d);
    ReadBack(pgm, back, addr0, nBytes, d'.flash);
    assert mem[..] == image;
    forall x | 0 <= x < back.Length
      ensures back[x] == if addr0 <= x < addr0 + nBytes then AvrMemory.And(d.flash[x], image[x]) else back0[x]
    {
      OverwrittenAt(back0, addr0, d'.flash[addr0..addr0 + nBytes], x);
      assert back[..][x] == back[x];
    }
    forall x | addr0 <= x < addr0 + nBytes && d.flash[x] == 0xff
      ensures back[x] == image[x]
    {
      AllOnesIsNeutral(image[x]);
    }
  }

  /** A flash read at a device that holds flash and is as the programmer left it. */
  method ReadBack(pgm: Ft245rFlash.Programmer, back: array<byte>, addr0: nat, nBytes: nat, flash: seq<byte>)
    requires pgm.Valid() && pgm.Idle() && addr0 + nBytes <= |flash| <= 0x20000 && addr0 + nBytes <= back.Length
    modifies pgm.bus, pgm.queue, pgm.queue.Nodes(), back
    ensures back[..] == Overwrite(old(back[..]), addr0, flash[addr0..addr0 + nBytes])
  {
    hide FlashReply, RequestQueue.Valid, Accounted, CommitsWith, Overwrite;
    Instructions(pgm);
    var link := new Link(pgm.link.pins, FlashReply(flash), pgm.link.noise, pgm.link.chip);
    var reader := new Ft245rFlash.Programmer(pgm.bus, pgm.queue, link, pgm.opcodes);
    reader.PagedLoadFlash(back, addr0, nBytes, flash);
  }

  lemma OverwrittenAt<T>(s: seq<T>, pos: nat, t: seq<T>, x: nat)
    requires pos + |t| <= |s| && x < |s|
    ensures Overwrite(s, pos, t)[x] == if pos <= x < pos + |t| then t[x - pos] else s[x]
  {
  }
}
