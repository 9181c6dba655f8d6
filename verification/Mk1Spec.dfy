/** The JTAG ICE mkI driver's page caches as a state machine beside the device, and
    the device accessed without a cache. */
module Mk1Spec {
  import opened CText
  import opened BitMask
  import Division

  /** The cache address that stands for no page: (unsigned long)-1. */
  const INVALID: nat := 0xffff_ffff_ffff_ffff

  datatype Mem = Flash | Eeprom | Fuse(n: nat)

  /** Page sizes as powers of two; eesave keeps the EEPROM through a chip erase. */
  datatype Geometry = Geometry(flashBits: nat, eepromBits: nat, eesave: bool)

  function PageSize(g: Geometry, m: Mem): (p: nat)
    ensures p > 0
  {
    match m
    case Flash => Pow2(g.flashBits)
    case Eeprom => Pow2(g.eepromBits)
    case Fuse(_) => 1
  }

  datatype Contents = Contents(flash: seq<octet>, eeprom: seq<octet>, fuses: seq<octet>)

  function Memory(c: Contents, m: Mem): seq<octet> {
    match m
    case Flash => c.flash
    case Eeprom => c.eeprom
    case Fuse(_) => c.fuses
  }

  function WithMemory(c: Contents, m: Mem, bytes: seq<octet>): Contents {
    match m
    case Flash => c.(flash := bytes)
    case Eeprom => c.(eeprom := bytes)
    case Fuse(_) => c.(fuses := bytes)
  }

  /** Where the driver looks for the byte at addr: fuses are numbered. */
  function Place(m: Mem, addr: nat): nat {
    if m.Fuse? then m.n else addr
  }

  datatype Cache = Cache(addr: nat, bytes: seq<octet>)

  datatype State = State(dev: Contents, flash: Cache, eeprom: Cache)

  function CacheOf(s: State, m: Mem): Cache
    requires !m.Fuse?
  {
    if m.Flash? then s.flash else s.eeprom
  }

  function WithCache(s: State, m: Mem, c: Cache): State
    requires !m.Fuse?
  {
    if m.Flash? then s.(flash := c) else s.(eeprom := c)
  }

  /** A valid cached page equals the page of the device. */
  predicate PageMatches(c: Cache, mem: seq<octet>, ps: nat) {
    c.addr != INVALID ==> c.addr + ps <= |mem| && c.bytes == mem[c.addr..c.addr + ps]
  }

  predicate Coherent(g: Geometry, s: State) {
    && PageMatches(s.flash, s.dev.flash, PageSize(g, Flash))
    && PageMatches(s.eeprom, s.dev.eeprom, PageSize(g, Eeprom))
  }

  // ----- programming

  /** A byte programmed over an old one: flash bits only go to 0, EEPROM is overwritten. */
  function Program(m: Mem, old_: octet, datum: octet): (r: octet) {
    if m.Flash? then AndAtMost(old_, datum); BitAnd(old_, datum) else datum
  }

  lemma ProgramTwice(m: Mem, o: octet, d: octet)
    ensures Program(m, Program(m, o, d), d) == Program(m, o, d)
  {
    AndTwice(o, d);
  }

  /** The padding of a short block leaves flash alone. */
  lemma PaddingKeepsFlash(o: octet)
    ensures Program(Flash, o, 0xff) == o
  {
    hide BitAnd;
    PowersOfTwo();
    AndLow(o, 8);
  }

  /** A paged write: n bytes from addr on of an image, page by page. */
  datatype PageJob = PageJob(m: Mem, addr: nat, n: nat, image: seq<octet>, ps: nat)

  predicate InJob(j: PageJob, i: nat)
    requires j.ps > 0
  {
    j.addr <= i && i - i % j.ps < j.addr + j.n
  }

  /** The byte sent for address i: every block has the size of the first, the rest of the
      page is 0xff. */
  function Datum(j: PageJob, i: nat): octet
    requires j.ps > 0 && i < |j.image|
  {
    if i % j.ps < j.n then j.image[i] else 0xff
  }

  predicate JobFits(j: PageJob, mem: seq<octet>) {
    j.ps > 0 && !j.m.Fuse? && |j.image| == |mem| && |mem| % j.ps == 0 && j.addr % j.ps == 0 && j.addr + j.n <= |mem|
  }

  /** Bytes of the job below sure are programmed, those below maybe may be, the others are not. */
  predicate Progress(j: PageJob, mem: seq<octet>, mem': seq<octet>, sure: nat, maybe: nat)
    requires JobFits(j, mem)
  {
    && |mem'| == |mem|
    && forall i {:trigger mem'[i]} | 0 <= i < |mem| ::
         && (mem'[i] == mem[i] || (InJob(j, i) && i < maybe && mem'[i] == Program(j.m, mem[i], Datum(j, i))))
         && (InJob(j, i) && i < sure ==> mem'[i] == Program(j.m, mem[i], Datum(j, i)))
  }

  /** A byte behind the block in its page, when fewer bytes than a page were asked for: flash keeps
      it, EEPROM keeps it only if it was blank. */
  lemma ShortBlockPadding(j: PageJob, mem: seq<octet>, mem': seq<octet>, i: nat)
    requires JobFits(j, mem) && Progress(j, mem, mem', |mem|, |mem|)
    requires i < |mem| && InJob(j, i) && i % j.ps >= j.n
    ensures j.m.Flash? ==> mem'[i] == mem[i]
    ensures j.m.Eeprom? ==> (mem'[i] == mem[i] <==> mem[i] == 0xff)
  {
    PaddingKeepsFlash(mem[i]);
  }

  /** One byte written to an EEPROM with pages of two takes the byte behind it along. */
  lemma PaddingOverwritesEeprom(mem': seq<octet>)
    requires Progress(PageJob(Eeprom, 0, 1, [5, 7], 2), [1, 2], mem', 2, 2)
    ensures mem' == [5, 0xff]
  {
    var j := PageJob(Eeprom, 0, 1, [5, 7], 2);
    assert InJob(j, 0) && InJob(j, 1);
    assert mem'[0] == Program(Eeprom, 1, Datum(j, 0)) && mem'[1] == Program(Eeprom, 2, Datum(j, 1));
  }

  // ----- the operations

  datatype Op =
    | ReadByte(m: Mem, addr: nat)
    | WriteByte(m: Mem, addr: nat, data: octet)
    | PagedWrite(job: PageJob)
    | ChipErase
    | Initialize

  /** What a call returned, and what became of an erase: whether the device was erased and
      whether the driver then got as far as forgetting its cached pages. */
  datatype Outcome = Outcome(rc: int, value: octet, erased: bool, forgot: bool)

  predicate ValidOp(g: Geometry, c: Contents, op: Op) {
    match op
    case ReadByte(m, addr) => Place(m, addr) < |Memory(c, m)|
    case WriteByte(m, addr, _) => Place(m, addr) < |Memory(c, m)|
    case PagedWrite(j) => j.ps == PageSize(g, j.m) && JobFits(j, Memory(c, j.m))
    case _ => true
  }

  function Ones(n: nat): (s: seq<octet>)
    ensures |s| == n
  {
    seq(n, _ => 0xff)
  }

  function Erased(g: Geometry, c: Contents): Contents {
    c.(flash := Ones(|c.flash|), eeprom := if g.eesave then c.eeprom else Ones(|c.eeprom|))
  }

  /** A byte of EEPROM or a fuse is written, or perhaps not if the call failed; a byte of flash
      cannot be written alone, the word that holds it is undefined. */
  predicate ByteWritten(c: Contents, m: Mem, at: nat, data: octet, rc: int, c': Contents)
    requires at < |Memory(c, m)|
  {
    var mem, mem' := Memory(c, m), Memory(c', m);
    && c' == WithMemory(c, m, mem')
    && |mem'| == |mem|
    && (forall i {:trigger mem'[i]} | 0 <= i < |mem| ::
          if m.Flash? then i / 2 == at / 2 || mem'[i] == mem[i]
          else mem'[i] == mem[i] || (i == at && mem'[i] == data))
    && (rc >= 0 && !m.Flash? ==> mem'[at] == data)
  }

  /** All pages of the job are programmed, or some bytes of them if the call failed. */
  predicate PagesWritten(c: Contents, j: PageJob, rc: int, c': Contents)
    requires JobFits(j, Memory(c, j.m))
  {
    var mem, mem' := Memory(c, j.m), Memory(c', j.m);
    && c' == WithMemory(c, j.m, mem')
    && Progress(j, mem, mem', if rc >= 0 then |mem| else 0, |mem|)
  }

  /** After a paged write that succeeded the bytes asked for hold the image, in flash as far as it
      clears bits; other memories, and bytes outside the pages of the range, are as before, whether it
      succeeded or not. */
  lemma ImageWritten(c: Contents, j: PageJob, rc: int, c': Contents)
    requires JobFits(j, Memory(c, j.m)) && PagesWritten(c, j, rc, c')
    ensures var mem, mem' := Memory(c, j.m), Memory(c', j.m);
      && |mem'| == |mem|
      && (rc >= 0 ==> forall i | j.addr <= i < j.addr + j.n ::
            mem'[i] == if j.m.Flash? then BitAnd(mem[i], j.image[i]) else j.image[i])
      && (forall i | 0 <= i < |mem| && (i < j.addr || i - i % j.ps >= j.addr + j.n) :: mem'[i] == mem[i])
    ensures c'.fuses == c.fuses && if j.m.Flash? then c'.eeprom == c.eeprom else c'.flash == c.flash
  {
    hide BitAnd;
    var mem, mem' := Memory(c, j.m), Memory(c', j.m);
    forall i | j.addr <= i < j.addr + j.n
      ensures InJob(j, i) && Datum(j, i) == j.image[i]
    {
      OffsetBelow(j.addr, i - j.addr, j.n, j.ps);
    }
    forall i | 0 <= i < |mem| && (i < j.addr || i - i % j.ps >= j.addr + j.n)
      ensures mem'[i] == mem[i]
    {
      assert !InJob(j, i);
    }
  }

  /** An offset below n in a page-aligned block is below n in its page. */
  lemma OffsetBelow(addr: nat, k: nat, n: nat, ps: nat)
    requires ps > 0 && addr % ps == 0 && k < n
    ensures (addr + k) % ps < n
  {
    assert addr == ps * (addr / ps);
    Division.AddMultiple(ps, addr / ps, k);
    if k < ps {
      Division.Unique(k, ps, 0, k);
    }
  }

  /** What an operation does to the device, and what a successful read returns, with no cache
      in between. */
  predicate Uncached(g: Geometry, c: Contents, op: Op, out: Outcome, c': Contents)
    requires ValidOp(g, c, op)
  {
    match op
    case ReadByte(m, addr) => c' == c && (out.rc >= 0 ==> out.value == Memory(c, m)[Place(m, addr)])
    case WriteByte(m, addr, data) => ByteWritten(c, m, Place(m, addr), data, out.rc, c')
    case PagedWrite(j) => PagesWritten(c, j, out.rc, c')
    case ChipErase => c' == (if out.erased then Erased(g, c) else c) && (out.rc >= 0 ==> out.erased)
    case Initialize => c' == c
  }

  /** ~mask of an unsigned int */
  function NotMask(mask: nat): nat {
    0xffff_ffff - mask % 0x1_0000_0000
  }

  /** A read from flash or EEPROM answers from the cached page if it is the right one; else a
      successful read fetches the page, and a failed one changes nothing. */
  predicate ReadNext(g: Geometry, s: State, m: Mem, addr: nat, out: Outcome, s': State)
    requires Place(m, addr) < |Memory(s.dev, m)|
  {
    if m.Fuse? then s' == s && (out.rc >= 0 ==> out.value == s.dev.fuses[m.n])
    else
      var ps := PageSize(g, m);
      var paddr, off := BitAnd(addr, NotMask(ps - 1)), BitAnd(addr, ps - 1);
      var c := CacheOf(s, m);
      if out.rc < 0 then s' == s
      else if paddr == c.addr then s' == s && off < |c.bytes| && out.value == c.bytes[off]
      else
        && paddr + ps <= |Memory(s.dev, m)|
        && var page := Memory(s.dev, m)[paddr..paddr + ps];
        && s' == WithCache(s, m, Cache(paddr, page))
        && off < ps && out.value == page[off]
  }

  predicate SameCaches(s: State, s': State) {
    s'.flash == s.flash && s'.eeprom == s.eeprom
  }

  predicate NoPages(s: State) {
    s.flash.addr == s.eeprom.addr == INVALID
  }

  predicate Forgotten(s: State, m: Mem, s': State)
    requires !m.Fuse?
  {
    CacheOf(s', m).addr == INVALID && (if m.Flash? then s'.eeprom == s.eeprom else s'.flash == s.flash)
  }

  /** The driver: what an operation does to device and caches. */
  predicate Next(g: Geometry, s: State, op: Op, out: Outcome, s': State)
    requires ValidOp(g, s.dev, op)
  {
    match op
    case ReadByte(m, addr) => ReadNext(g, s, m, addr, out, s')
    case WriteByte(m, addr, data) =>
      && ByteWritten(s.dev, m, Place(m, addr), data, out.rc, s'.dev)
      && if m.Fuse? then SameCaches(s, s') else Forgotten(s, m, s')
    case PagedWrite(j) =>
      && PagesWritten(s.dev, j, out.rc, s'.dev)
      && (s' == s || Forgotten(s, j.m, s'))
    case ChipErase =>
      && s'.dev == (if out.erased then Erased(g, s.dev) else s.dev)
      && (out.rc >= 0 ==> out.erased)
      && (out.forgot ==> out.erased)
      && if out.forgot then NoPages(s') else SameCaches(s, s')
    case Initialize =>
      && s'.dev == s.dev
      && (out.rc >= 0 ==> out.forgot)
      && if out.forgot then NoPages(s') else SameCaches(s, s')
  }

  // ----- one step

  predicate ValidGeometry(g: Geometry, c: Contents) {
    && 1 <= g.flashBits <= 9 && g.eepromBits <= 8
    && |c.flash| <= 0x100_0000 && |c.eeprom| <= 0x100_0000 && |c.fuses| == 3
    && |c.flash| % PageSize(g, Flash) == 0 && |c.eeprom| % PageSize(g, Eeprom) == 0
  }

  /** The masks of the driver split an address into page and offset. */
  lemma {:induction false} MasksSplit(addr: nat, k: nat)
    requires k <= 9 && addr < 0x1_0000_0000
    ensures 0 < Pow2(k) <= 512
    ensures BitAnd(addr, NotMask(Pow2(k) - 1)) == addr - addr % Pow2(k)
    ensures BitAnd(addr, Pow2(k) - 1) == addr % Pow2(k)
  {
    hide BitAnd, Pow2;
    AndLow(addr, k);
    PowersOfTwo();
    PowMonotone(k, 9);
    AndHigh(addr, k, 32);
  }

  lemma PowersOfTwo()
    ensures Pow2(8) == 256 && Pow2(9) == 512 && Pow2(32) == 0x1_0000_0000
  {
    assert Pow2(4) == 16 && Pow2(8) == 256;
    assert Pow2(12) == 0x1000 && Pow2(16) == 0x1_0000;
    assert Pow2(20) == 0x10_0000 && Pow2(24) == 0x100_0000;
    assert Pow2(28) == 0x1000_0000;
  }

  lemma {:induction false} PowMonotone(k: nat, n: nat)
    requires k <= n
    ensures Pow2(k) <= Pow2(n)
    decreases n - k
  {
    if k < n {
      PowMonotone(k + 1, n);
    }
  }

  /** A page that starts inside a memory made of whole pages ends inside it. */
  lemma PageInside(addr: nat, ps: nat, size: nat)
    requires ps > 0 && addr < size && size % ps == 0
    ensures addr - addr % ps + ps <= size
  {
    var k, n := addr / ps, size / ps;
    assert addr == ps * k + addr % ps;
    assert size == ps * n;
    Division.NextMultipleFits(ps, k, n);
  }

  /** A successful read returns the byte of the device and leaves its page in the cache. */
  lemma ReadIsTransparent(g: Geometry, s: State, m: Mem, addr: nat, out: Outcome, s': State)
    requires ValidGeometry(g, s.dev) && Coherent(g, s) && Place(m, addr) < |Memory(s.dev, m)|
    requires ReadNext(g, s, m, addr, out, s')
    ensures Coherent(g, s') && s'.dev == s.dev
    ensures out.rc >= 0 ==> out.value == Memory(s.dev, m)[Place(m, addr)]
  {
    hide Pow2, BitAnd, NotMask;
    if !m.Fuse? {
      var mem, ps := Memory(s.dev, m), PageSize(g, m);
      MasksSplit(addr, if m.Flash? then g.flashBits else g.eepromBits);
      PageInside(addr, ps, |mem|);
    }
  }

  lemma WriteKeepsCoherent(g: Geometry, s: State, op: Op, out: Outcome, s': State)
    requires ValidGeometry(g, s.dev) && Coherent(g, s) && ValidOp(g, s.dev, op) && Next(g, s, op, out, s')
    requires op.WriteByte? || op.PagedWrite?
    ensures Coherent(g, s') && ValidGeometry(g, s'.dev)
  {
    hide Pow2, Program, Datum;
  }

  /** The erase leaves every cached page as it was: there is none, or it was blank already. */
  predicate BlankCaches(g: Geometry, s: State) {
    && (s.flash.addr != INVALID ==> s.flash.bytes == Ones(PageSize(g, Flash)))
    && (s.eeprom.addr != INVALID && !g.eesave ==> s.eeprom.bytes == Ones(PageSize(g, Eeprom)))
  }

  /** A chip erase whose re-initialisation fails goes unnoticed by jtagmkI_chip_erase; the
      caches still equal the device exactly if they held nothing but blank pages. */
  lemma ChipEraseExactly(g: Geometry, s: State, out: Outcome, s': State)
    requires ValidGeometry(g, s.dev) && Coherent(g, s) && Next(g, s, ChipErase, out, s')
    ensures ValidGeometry(g, s'.dev)
    ensures Coherent(g, s') <==> out.forgot || !out.erased || BlankCaches(g, s)
  {
    hide Pow2;
    if !out.forgot && out.erased {
      BlankPage(s.flash, |s.dev.flash|, PageSize(g, Flash));
      BlankPage(s.eeprom, |s.dev.eeprom|, PageSize(g, Eeprom));
    }
  }

  lemma BlankPage(c: Cache, size: nat, ps: nat)
    requires c.addr != INVALID ==> c.addr + ps <= size
    ensures PageMatches(c, Ones(size), ps) <==> c.addr == INVALID || c.bytes == Ones(ps)
  {
    if c.addr != INVALID {
      assert Ones(size)[c.addr..c.addr + ps] == Ones(ps);
    }
  }

  /** The precondition of StepIsTransparent: no erase goes by with other than blank pages kept. */
  predicate EraseNoticed(g: Geometry, s: State, op: Op, out: Outcome) {
    op == ChipErase && out.erased ==> out.forgot || BlankCaches(g, s)
  }

  /** Every operation keeps the caches equal to the device, and with the caches it does what it
      would do without. */
  lemma StepIsTransparent(g: Geometry, s: State, op: Op, out: Outcome, s': State)
    requires ValidGeometry(g, s.dev) && Coherent(g, s) && ValidOp(g, s.dev, op) && Next(g, s, op, out, s')
    requires EraseNoticed(g, s, op, out)
    ensures Coherent(g, s') && Uncached(g, s.dev, op, out, s'.dev) && ValidGeometry(g, s'.dev)
  {
    hide ReadNext, ByteWritten, PagesWritten, Coherent, BlankCaches, Pow2;
    match op
    case ReadByte(m, addr) => ReadIsTransparent(g, s, m, addr, out, s');
    case WriteByte(_, _, _) => WriteKeepsCoherent(g, s, op, out, s');
    case PagedWrite(_) => WriteKeepsCoherent(g, s, op, out, s');
    case ChipErase => ChipEraseExactly(g, s, out, s');
    case Initialize => InitializeKeeps(g, s, out, s');
  }

  lemma InitializeKeeps(g: Geometry, s: State, out: Outcome, s': State)
    requires Coherent(g, s) && Next(g, s, Initialize, out, s')
    ensures Coherent(g, s')
  {
  }

  // ----- runs

  datatype Event = Event(op: Op, out: Outcome, after: State)

  /** A run of the driver from state s. */
  ghost predicate Run(g: Geometry, s: State, es: seq<Event>)
    decreases |es|
  {
    es == [] || (
      && ValidOp(g, s.dev, es[0].op)
      && Next(g, s, es[0].op, es[0].out, es[0].after)
      && Run(g, es[0].after, es[1..]))
  }

  /** The same events at a device without a cache, from contents c. */
  ghost predicate UncachedRun(g: Geometry, c: Contents, es: seq<Event>)
    decreases |es|
  {
    es == [] || (
      && ValidOp(g, c, es[0].op)
      && Uncached(g, c, es[0].op, es[0].out, es[0].after.dev)
      && UncachedRun(g, es[0].after.dev, es[1..]))
  }

  ghost predicate ErasesNoticed(g: Geometry, s: State, es: seq<Event>)
    decreases |es|
  {
    es == [] || (EraseNoticed(g, s, es[0].op, es[0].out) && ErasesNoticed(g, es[0].after, es[1..]))
  }

  /** Every run of the driver is a run without a cache, and its caches are never stale. */
  lemma {:induction false} RunIsTransparent(g: Geometry, s: State, es: seq<Event>)
    requires ValidGeometry(g, s.dev) && Coherent(g, s) && Run(g, s, es) && ErasesNoticed(g, s, es)
    ensures UncachedRun(g, s.dev, es)
    ensures forall e | e in es :: Coherent(g, e.after)
    decreases |es|
  {
    hide Next, Coherent, Uncached, EraseNoticed, ValidGeometry, ValidOp;
    if es != [] {
      StepIsTransparent(g, s, es[0].op, es[0].out, es[0].after);
      RunIsTransparent(g, es[0].after, es[1..]);
      forall e | e in es
        ensures Coherent(g, e.after)
      {
        assert e == es[0] || e in es[1..];
      }
    }
  }

  /** An erase whose re-initialisation fails, then a read: 0 is returned for a byte that is 0xff. */
  lemma StaleAfterErase()
    ensures exists g: Geometry, s: State, es: seq<Event> ::
      ValidGeometry(g, s.dev) && Coherent(g, s) && Run(g, s, es) && !UncachedRun(g, s.dev, es)
  {
    var g := Geometry(1, 0, false);
    var s := State(Contents([0, 0], [0xff], [0xff, 0xff, 0xff]), Cache(0, [0, 0]), Cache(INVALID, [0xff]));
    var erased := State(Contents([0xff, 0xff], [0xff], [0xff, 0xff, 0xff]), s.flash, s.eeprom);
    var e1 := Event(ChipErase, Outcome(0, 0, true, false), erased);
    var e2 := Event(ReadByte(Flash, 0), Outcome(0, 0, false, false), erased);
    assert Pow2(1) == 2 && Pow2(0) == 1;
    assert BitAnd(0, NotMask(1)) == 0 && BitAnd(0, 1) == 0;
    assert Erased(g, s.dev) == erased.dev;
    assert Next(g, s, ChipErase, e1.out, erased);
    assert Next(g, erased, e2.op, e2.out, erased);
    var es := [e1, e2];
    assert es[1..] == [e2] && [e2][1..] == [];
    assert Run(g, erased, [e2]);
    assert !UncachedRun(g, erased.dev, [e2]);
    assert Run(g, s, es) && !UncachedRun(g, s.dev, es);
    assert ValidGeometry(g, s.dev) && Coherent(g, s);
  }
}
