/** Writing a memory from its buffer: avr_write without the TPI branch.  Paged
    memories are written through a page buffer that a commit ANDs into flash. */
module AvrWrite {
  import opened AvrMemory
  import opened Division

  // ----- the device

  /** What the programmer asks of the device, and whether it got through. */
  datatype Event = Load(addr: nat, data: byte, ok: bool) | Commit(addr: nat)

  /** Flash and the page buffer, which is all ones when nothing was loaded. */
  datatype Device = Device(flash: seq<byte>, page: seq<byte>)

  function ErasedPage(pageSize: nat): (s: seq<byte>)
    ensures |s| == pageSize
  {
    seq(pageSize, _ => 0xff)
  }

  predicate ValidDevice(d: Device, pageSize: nat) {
    pageSize > 0 && |d.page| == pageSize && |d.flash| % pageSize == 0
  }

  /** now lies between what data would leave of before, and before. */
  predicate PartlyProgrammed(before: byte, data: byte, now: byte) {
    And(now, before) == now && And(And(before, data), now) == And(before, data)
  }

  lemma FullyProgrammed(before: byte, data: byte)
    ensures PartlyProgrammed(before, data, And(before, data))
  {
  }

  lemma PartlyProgrammedThenAll(before: byte, data: byte, now: byte)
    requires PartlyProgrammed(before, data, now)
    ensures And(now, data) == And(before, data)
    ensures data == 0xff ==> now == before
  {
  }

  /** A byte programmed over another: a memory that is written byte by byte may erase each
      byte on its own; otherwise bits are only cleared. */
  function Program(overwrites: bool, before: byte, data: byte): byte {
    if overwrites then data else And(before, data)
  }

  /** What a write that was broken off may leave of a byte. */
  predicate Partly(overwrites: bool, before: byte, data: byte, now: byte) {
    if overwrites then now == before || now == data || now == 0xff else PartlyProgrammed(before, data, now)
  }

  lemma PartlyThenAll(overwrites: bool, before: byte, data: byte, now: byte)
    requires Partly(overwrites, before, data, now)
    ensures Program(overwrites, now, data) == Program(overwrites, before, data)
    ensures !overwrites && data == 0xff ==> now == before
  {
    if !overwrites {
      PartlyProgrammedThenAll(before, data, now);
    }
  }

  lemma PartlyEnds(overwrites: bool, before: byte, data: byte)
    ensures Partly(overwrites, before, data, before)
    ensures Partly(overwrites, before, data, Program(overwrites, before, data))
    ensures Program(overwrites, 0xff, data) == data
  {
    hide PartlyProgrammed, And;
    FullyProgrammed(before, data);
    ProgrammedNothing(before, data);
    AllOnesIsNeutral(data);
  }

  /** Programming what is left of a broken-off write. */
  lemma PartlyAgain(overwrites: bool, before: byte, data: byte, now: byte)
    requires Partly(overwrites, before, data, now)
    ensures Partly(overwrites, before, data, Program(overwrites, now, data))
  {
    hide Partly, Program;
    PartlyThenAll(overwrites, before, data, now);
    PartlyEnds(overwrites, before, data);
  }

  lemma AllOnesIsNeutral(b: byte)
    ensures And(b, 0xff) == b && And(0xff, b) == b
  {
  }

  function Programmed(flash: seq<byte>, base: nat, page: seq<byte>): (r: seq<byte>)
    requires base + |page| <= |flash|
    ensures |r| == |flash|
    ensures forall i | 0 <= i < |flash| ::
      r[i] == if base <= i < base + |page| then And(flash[i], page[i - base]) else flash[i]
  {
    seq(|flash|, i requires 0 <= i < |flash| =>
      if base <= i < base + |page| then And(flash[i], page[i - base]) else flash[i])
  }

  lemma BlockFits(addr: nat, m: nat, size: nat)
    requires m > 0 && size % m == 0 && addr < size
    ensures BlockStart(addr, m) + m <= size
  {
    assert addr == m * (addr / m) + addr % m;
    assert size == m * (size / m);
    assert m * (addr / m) < m * (size / m);
    NextMultipleFits(m, addr / m, size / m);
  }

  function Apply(d: Device, e: Event, pageSize: nat): (r: Device)
    requires ValidDevice(d, pageSize) && e.addr < |d.flash|
    ensures ValidDevice(r, pageSize) && |r.flash| == |d.flash|
  {
    match e
    case Load(a, data, ok) => if ok then d.(page := d.page[a % pageSize := data]) else d
    case Commit(a) =>
      BlockFits(a, pageSize, |d.flash|);
      Device(Programmed(d.flash, BlockStart(a, pageSize), d.page), ErasedPage(pageSize))
  }

  predicate InFlash(events: seq<Event>, size: nat) {
    forall k | 0 <= k < |events| :: events[k].addr < size
  }

  function Run(d: Device, events: seq<Event>, pageSize: nat): (r: Device)
    requires ValidDevice(d, pageSize) && InFlash(events, |d.flash|)
    ensures ValidDevice(r, pageSize) && |r.flash| == |d.flash|
    decreases |events|
  {
    if events == [] then d
    else
      assert InFlash(events[1..], |d.flash|);
      Run(Apply(d, events[0], pageSize), events[1..], pageSize)
  }

  lemma {:induction false} RunAppend(d: Device, a: seq<Event>, b: seq<Event>, pageSize: nat)
    requires ValidDevice(d, pageSize) && InFlash(a, |d.flash|) && InFlash(b, |d.flash|)
    ensures InFlash(a + b, |d.flash|)
    ensures Run(d, a + b, pageSize) == Run(Run(d, a, pageSize), b, pageSize)
    decreases |a|
  {
    if a == [] {
      assert a + b == b;
    } else {
      assert (a + b)[1..] == a[1..] + b;
      RunAppend(Apply(d, a[0], pageSize), a[1..], b, pageSize);
    }
  }

  // ----- the plan: what has to be asked, page by page

  /** Tagged bytes of an image, with the outcome of loading each. */
  datatype Image = Image(buf: seq<byte>, tags: seq<bool>, ok: seq<bool>)

  predicate ValidImage(m: Image, wsize: nat) {
    |m.buf| == |m.tags| >= wsize && |m.ok| >= wsize
  }

  predicate Tainted(m: Image, lo: nat, hi: nat)
    requires hi <= |m.tags|
  {
    exists i | lo <= i < hi :: m.tags[i]
  }

  /** The loads of the tagged bytes in lo..hi, in order. */
  function Loads(m: Image, lo: nat, hi: nat): seq<Event>
    requires lo <= hi && ValidImage(m, hi)
    decreases hi - lo
  {
    if lo == hi then []
    else Loads(m, lo, hi - 1) + if m.tags[hi - 1] then [Load(hi - 1, m.buf[hi - 1], m.ok[hi - 1])] else []
  }

  /** Load the tagged bytes of lo..hi, then commit the page if there were any. */
  function PagePlan(m: Image, lo: nat, hi: nat): seq<Event>
    requires lo < hi && ValidImage(m, hi)
  {
    Loads(m, lo, hi) + if Tainted(m, lo, hi) then [Commit(hi - 1)] else []
  }

  /** Where the page that starts at lo ends, or the data if that is sooner. */
  function PageEnd(lo: nat, wsize: nat, pageSize: nat): nat {
    if lo + pageSize < wsize then lo + pageSize else wsize
  }

  /** Page by page from lo on. */
  function Plan(m: Image, lo: nat, wsize: nat, pageSize: nat): seq<Event>
    requires pageSize > 0 && ValidImage(m, wsize)
    decreases wsize - lo
  {
    if lo >= wsize then []
    else PagePlan(m, lo, PageEnd(lo, wsize, pageSize)) + Plan(m, PageEnd(lo, wsize, pageSize), wsize, pageSize)
  }

  // ----- properties of the plan

  lemma {:induction false} LoadsAt(m: Image, lo: nat, hi: nat, k: nat)
    requires lo <= hi && ValidImage(m, hi) && k < |Loads(m, lo, hi)|
    ensures var e := Loads(m, lo, hi)[k];
      e.Load? && lo <= e.addr < hi && m.tags[e.addr] && e.data == m.buf[e.addr] && e.ok == m.ok[e.addr]
    decreases hi
  {
    if k < |Loads(m, lo, hi - 1)| {
      LoadsAt(m, lo, hi - 1, k);
    }
  }

  lemma {:induction false} LoadsHas(m: Image, lo: nat, hi: nat, a: nat) returns (k: nat)
    requires lo <= a < hi && ValidImage(m, hi) && m.tags[a]
    ensures k < |Loads(m, lo, hi)| && Loads(m, lo, hi)[k] == Load(a, m.buf[a], m.ok[a])
    decreases hi
  {
    if a == hi - 1 {
      k := |Loads(m, lo, hi)| - 1;
    } else {
      k := LoadsHas(m, lo, hi - 1, a);
    }
  }

  /** The byte that makes avr_write flush: the last of its page, or of the data. */
  predicate LastOfPage(a: nat, wsize: nat, pageSize: nat)
    requires pageSize > 0
  {
    a % pageSize == pageSize - 1 || a == wsize - 1
  }

  /** Every event of the plan from lo on lies at or above lo, loads are tagged bytes, and a
      commit is for the last byte of a tainted page. */
  lemma {:induction false} PlanAt(m: Image, lo: nat, wsize: nat, pageSize: nat, k: nat)
    requires pageSize > 0 && lo % pageSize == 0 && ValidImage(m, wsize)
    requires k < |Plan(m, lo, wsize, pageSize)|
    ensures var e := Plan(m, lo, wsize, pageSize)[k];
      && lo <= e.addr < wsize
      && (e.Load? ==> m.tags[e.addr] && e.data == m.buf[e.addr] && e.ok == m.ok[e.addr])
      && (e.Commit? ==> LastOfPage(e.addr, wsize, pageSize) && Tainted(m, BlockStart(e.addr, pageSize), e.addr + 1))
    decreases wsize - lo
  {
    var hi := PageEnd(lo, wsize, pageSize);
    var here := PagePlan(m, lo, hi);
    PageBounds(lo, wsize, pageSize);
    if k < |Loads(m, lo, hi)| {
      LoadsAt(m, lo, hi, k);
    } else if k >= |here| && hi < wsize {
      PlanAt(m, hi, wsize, pageSize, k - |here|);
    }
  }

  lemma PageBounds(lo: nat, wsize: nat, pageSize: nat)
    requires pageSize > 0 && lo % pageSize == 0 && lo < wsize
    ensures var hi := PageEnd(lo, wsize, pageSize);
      && lo < hi <= wsize && hi - lo <= pageSize
      && LastOfPage(hi - 1, wsize, pageSize)
      && (hi < wsize ==> hi % pageSize == 0)
      && (forall a | lo <= a < hi :: BlockStart(a, pageSize) == lo && a % pageSize == a - lo)
      && (forall a | lo <= a < hi - 1 :: !LastOfPage(a, wsize, pageSize))
  {
    var q := lo / pageSize;
    var hi := PageEnd(lo, wsize, pageSize);
    assert lo == pageSize * q;
    forall a | lo <= a < hi ensures BlockStart(a, pageSize) == lo && a % pageSize == a - lo {
      Unique(a, pageSize, q, a - lo);
    }
    if hi == lo + pageSize {
      assert hi == pageSize * (q + 1) + 0;
      Unique(hi, pageSize, q + 1, 0);
    }
  }

  lemma {:induction false} LoadsOrdered(m: Image, lo: nat, hi: nat, j: nat, k: nat)
    requires lo <= hi && ValidImage(m, hi) && j < k < |Loads(m, lo, hi)|
    ensures Loads(m, lo, hi)[j].addr < Loads(m, lo, hi)[k].addr
    decreases hi
  {
    if k < |Loads(m, lo, hi - 1)| {
      LoadsOrdered(m, lo, hi - 1, j, k);
    } else {
      LoadsAt(m, lo, hi - 1, j);
    }
  }

  /** Events come in the order of their addresses; only a load and the commit that
      follows it share one.  So no commit is repeated, every commit follows the loads
      of its page, and no byte of a later page comes before it. */
  lemma {:induction false} PlanOrdered(m: Image, lo: nat, wsize: nat, pageSize: nat, j: nat, k: nat)
    requires pageSize > 0 && lo % pageSize == 0 && ValidImage(m, wsize)
    requires j < k < |Plan(m, lo, wsize, pageSize)|
    ensures var e, f := Plan(m, lo, wsize, pageSize)[j], Plan(m, lo, wsize, pageSize)[k];
      e.addr < f.addr || (e.addr == f.addr && e.Load? && f.Commit?)
    decreases wsize - lo
  {
    var hi := PageEnd(lo, wsize, pageSize);
    var loads, here := Loads(m, lo, hi), PagePlan(m, lo, hi);
    PageBounds(lo, wsize, pageSize);
    if j < |loads| {
      LoadsAt(m, lo, hi, j);
    }
    if k < |loads| {
      LoadsOrdered(m, lo, hi, j, k);
    } else if k >= |here| {
      PlanAt(m, hi, wsize, pageSize, k - |here|);
      if j >= |here| {
        PlanOrdered(m, hi, wsize, pageSize, j - |here|, k - |here|);
      }
    }
  }

  /** Every tagged byte is loaded. */
  lemma {:induction false} PlanHasLoad(m: Image, lo: nat, wsize: nat, pageSize: nat, a: nat) returns (k: nat)
    requires pageSize > 0 && lo % pageSize == 0 && ValidImage(m, wsize)
    requires lo <= a < wsize && m.tags[a]
    ensures k < |Plan(m, lo, wsize, pageSize)| && Plan(m, lo, wsize, pageSize)[k] == Load(a, m.buf[a], m.ok[a])
    decreases wsize - lo
  {
    var hi := PageEnd(lo, wsize, pageSize);
    PageBounds(lo, wsize, pageSize);
    if a < hi {
      k := LoadsHas(m, lo, hi, a);
    } else {
      k := PlanHasLoad(m, hi, wsize, pageSize, a);
      k := k + |PagePlan(m, lo, hi)|;
    }
  }

  /** Every page with a tagged byte is committed. */
  lemma {:induction false} PlanHasCommit(m: Image, lo: nat, wsize: nat, pageSize: nat, a: nat) returns (k: nat)
    requires pageSize > 0 && lo % pageSize == 0 && ValidImage(m, wsize)
    requires lo <= a < wsize && LastOfPage(a, wsize, pageSize) && Tainted(m, BlockStart(a, pageSize), a + 1)
    ensures k < |Plan(m, lo, wsize, pageSize)| && Plan(m, lo, wsize, pageSize)[k] == Commit(a)
    decreases wsize - lo
  {
    var hi := PageEnd(lo, wsize, pageSize);
    PageBounds(lo, wsize, pageSize);
    if a < hi {
      k := |Loads(m, lo, hi)|;
    } else {
      k := PlanHasCommit(m, hi, wsize, pageSize, a);
      k := k + |PagePlan(m, lo, hi)|;
    }
  }

  // ----- what the plan does to the device

  /** Byte i is to be programmed and its load got through. */
  predicate Reaches(m: Image, i: nat)
    requires i < |m.tags| && i < |m.ok|
  {
    m.tags[i] && m.ok[i]
  }

  /** The page buffer after the loads of lo..hi. */
  function LoadedPage(m: Image, lo: nat, hi: nat, page: seq<byte>): (r: seq<byte>)
    requires ValidImage(m, hi)
    ensures |r| == |page|
    ensures forall j | 0 <= j < |page| :: r[j] == if lo + j < hi && Reaches(m, lo + j) then m.buf[lo + j] else page[j]
  {
    seq(|page|, j requires 0 <= j < |page| => if lo + j < hi && Reaches(m, lo + j) then m.buf[lo + j] else page[j])
  }

  lemma LoadedPageStep(m: Image, lo: nat, a: nat, page: seq<byte>)
    requires lo <= a < lo + |page| && ValidImage(m, a + 1)
    ensures LoadedPage(m, lo, a + 1, page)
      == if Reaches(m, a) then LoadedPage(m, lo, a, page)[a - lo := m.buf[a]] else LoadedPage(m, lo, a, page)
  {
  }

  lemma {:induction false} LoadsEffect(d: Device, m: Image, lo: nat, hi: nat, pageSize: nat)
    requires ValidDevice(d, pageSize) && lo % pageSize == 0 && lo <= hi <= lo + pageSize && hi <= |d.flash|
    requires ValidImage(m, hi)
    ensures InFlash(Loads(m, lo, hi), |d.flash|)
    ensures Run(d, Loads(m, lo, hi), pageSize) == d.(page := LoadedPage(m, lo, hi, d.page))
    decreases hi
  {
    if lo == hi {
      assert LoadedPage(m, lo, lo, d.page) == d.page;
    } else {
      hide LoadedPage, Run;
      LoadsEffect(d, m, lo, hi - 1, pageSize);
      OffsetInPage(lo, hi - 1, pageSize);
      LoadedPageStep(m, lo, hi - 1, d.page);
      if m.tags[hi - 1] {
        RunLast(d, Loads(m, lo, hi - 1), Load(hi - 1, m.buf[hi - 1], m.ok[hi - 1]), pageSize);
      } else {
        assert Loads(m, lo, hi) == Loads(m, lo, hi - 1);
      }
    }
  }

  lemma OffsetInPage(lo: nat, a: nat, pageSize: nat)
    requires pageSize > 0 && lo % pageSize == 0 && lo <= a < lo + pageSize
    ensures a % pageSize == a - lo && BlockStart(a, pageSize) == lo
  {
    assert lo == pageSize * (lo / pageSize);
    Unique(a, pageSize, lo / pageSize, a - lo);
  }

  lemma RunLast(d: Device, a: seq<Event>, e: Event, pageSize: nat)
    requires ValidDevice(d, pageSize) && InFlash(a, |d.flash|) && e.addr < |d.flash|
    ensures InFlash(a + [e], |d.flash|)
    ensures Run(d, a + [e], pageSize) == Apply(Run(d, a, pageSize), e, pageSize)
  {
    RunAppend(d, a, [e], pageSize);
    assert [e][1..] == [];
  }

  /** Flash after the page that covers lo..hi was loaded and committed. */
  predicate ProgrammedBy(flash: seq<byte>, r: seq<byte>, m: Image, lo: nat, hi: nat)
    requires ValidImage(m, hi)
  {
    |r| == |flash| && forall i | 0 <= i < |flash| ::
      r[i] == if lo <= i < hi && Reaches(m, i) then And(flash[i], m.buf[i]) else flash[i]
  }

  lemma CommitEffect(flash: seq<byte>, lo: nat, m: Image, hi: nat, pageSize: nat)
    requires lo + pageSize <= |flash| && hi <= lo + pageSize && ValidImage(m, hi)
    ensures ProgrammedBy(flash, Programmed(flash, lo, LoadedPage(m, lo, hi, ErasedPage(pageSize))), m, lo, hi)
  {
    hide And;
    var page := LoadedPage(m, lo, hi, ErasedPage(pageSize));
    var r := Programmed(flash, lo, page);
    forall i | 0 <= i < |flash|
      ensures r[i] == if lo <= i < hi && Reaches(m, i) then And(flash[i], m.buf[i]) else flash[i]
    {
      AllOnesIsNeutral(flash[i]);
      if lo <= i < lo + pageSize {
        assert page[i - lo] == if i < hi && Reaches(m, i) then m.buf[i] else 0xff;
      }
    }
  }

  lemma NothingLoaded(m: Image, lo: nat, hi: nat, page: seq<byte>)
    requires ValidImage(m, hi) && !Tainted(m, lo, hi)
    ensures LoadedPage(m, lo, hi, page) == page
  {
    forall j | 0 <= j < |page| ensures LoadedPage(m, lo, hi, page)[j] == page[j] {
      if lo + j < hi {
        assert !m.tags[lo + j];
      }
    }
  }

  lemma PageEffect(d: Device, m: Image, lo: nat, hi: nat, pageSize: nat)
    requires ValidDevice(d, pageSize) && d.page == ErasedPage(pageSize)
    requires lo % pageSize == 0 && lo < hi <= lo + pageSize && hi <= |d.flash| && ValidImage(m, hi)
    ensures InFlash(PagePlan(m, lo, hi), |d.flash|)
    ensures Run(d, PagePlan(m, lo, hi), pageSize).page == ErasedPage(pageSize)
    ensures ProgrammedBy(d.flash, Run(d, PagePlan(m, lo, hi), pageSize).flash, m, lo, hi)
  {
    hide LoadedPage, Run, Loads, ProgrammedBy, ErasedPage, Programmed;
    LoadsEffect(d, m, lo, hi, pageSize);
    if Tainted(m, lo, hi) {
      RunLast(d, Loads(m, lo, hi), Commit(hi - 1), pageSize);
      OffsetInPage(lo, hi - 1, pageSize);
      BlockFits(hi - 1, pageSize, |d.flash|);
      CommitEffect(d.flash, lo, m, hi, pageSize);
    } else {
      assert PagePlan(m, lo, hi) == Loads(m, lo, hi);
      NothingLoaded(m, lo, hi, d.page);
      NothingProgrammed(d.flash, m, lo, hi);
    }
  }

  lemma NothingProgrammed(flash: seq<byte>, m: Image, lo: nat, hi: nat)
    requires ValidImage(m, hi) && !Tainted(m, lo, hi)
    ensures ProgrammedBy(flash, flash, m, lo, hi)
  {
  }

  /** Exactly the tagged bytes whose load got through are programmed. */
  lemma {:induction false} PlanEffect(d: Device, m: Image, lo: nat, wsize: nat, pageSize: nat)
    requires ValidDevice(d, pageSize) && d.page == ErasedPage(pageSize)
    requires lo % pageSize == 0 && wsize <= |d.flash| && ValidImage(m, wsize)
    ensures InFlash(Plan(m, lo, wsize, pageSize), |d.flash|)
    ensures Run(d, Plan(m, lo, wsize, pageSize), pageSize).page == ErasedPage(pageSize)
    ensures ProgrammedBy(d.flash, Run(d, Plan(m, lo, wsize, pageSize), pageSize).flash, m, lo, wsize)
    decreases wsize - lo
  {
    if lo < wsize {
      var hi := PageEnd(lo, wsize, pageSize);
      PageBounds(lo, wsize, pageSize);
      PageEffect(d, m, lo, hi, pageSize);
      if hi < wsize {
        var d' := Run(d, PagePlan(m, lo, hi), pageSize);
        PlanEffect(d', m, hi, wsize, pageSize);
        RunAppend(d, PagePlan(m, lo, hi), Plan(m, hi, wsize, pageSize), pageSize);
      } else {
        assert Plan(m, hi, wsize, pageSize) == [];
        assert Plan(m, lo, wsize, pageSize) == PagePlan(m, lo, hi);
      }
    }
  }

  // ----- the byte loop of avr_write

  /** A part behind a programmer: the byte write at a gets through where gets(a) holds, the page
      erase and the page write at a where eraseOk(a) and writeOk(a) do. */
  class Programmer {
    const pageSize: nat
    const overwrites: bool
    const gets: nat -> bool
    const eraseOk: nat -> bool
    const writeOk: nat -> bool
    var device: Device
    ghost var log: seq<Event>

    ghost predicate Valid()
      reads this
    {
      ValidDevice(device, pageSize)
    }

    constructor (pageSize: nat, overwrites: bool, flash: seq<byte>, gets: nat -> bool, eraseOk: nat -> bool, writeOk: nat -> bool)
      requires pageSize > 0 && |flash| % pageSize == 0
      ensures Valid() && device == Device(flash, ErasedPage(pageSize)) && log == []
      ensures this.pageSize == pageSize && this.overwrites == overwrites
      ensures this.gets == gets && this.eraseOk == eraseOk && this.writeOk == writeOk
    {
      this.pageSize, this.overwrites := pageSize, overwrites;
      this.gets, this.eraseOk, this.writeOk := gets, eraseOk, writeOk;
      device := Device(flash, ErasedPage(pageSize));
      log := [];
    }

    /** avr_write_byte on paged memory: the page buffer is filled. */
    method WriteByte(a: nat, data: byte) returns (rc: int)
      requires Valid() && a < |device.flash|
      modifies this
      ensures Valid() && (rc == 0 <==> gets(a))
      ensures log == old(log) + [Load(a, data, gets(a))]
      ensures device == Apply(old(device), Load(a, data, gets(a)), pageSize)
    {
      rc := if gets(a) then 0 else -1;
      device := Apply(device, Load(a, data, gets(a)), pageSize);
      log := log + [Load(a, data, gets(a))];
    }

    /** avr_write_byte on a memory that is not paged. */
    method WriteSingle(a: nat, data: byte) returns (rc: int)
      requires Valid() && a < |device.flash|
      modifies this`device
      ensures Valid() && (rc == 0 <==> gets(a))
      ensures device == old(device).(flash :=
        if gets(a) then old(device).flash[a := Program(overwrites, old(device).flash[a], data)] else old(device).flash)
    {
      rc := if gets(a) then 0 else -1;
      if rc == 0 {
        device := device.(flash := device.flash[a := Program(overwrites, device.flash[a], data)]);
      }
    }

    /** page_erase; a failed one may have erased part of the page. */
    method PageErase(base: nat) returns (rc: int)
      requires Valid() && base + pageSize <= |device.flash|
      modifies this`device
      ensures Valid() && device.page == old(device).page && |device.flash| == |old(device).flash|
      ensures forall i | 0 <= i < |device.flash| ::
        device.flash[i] == old(device).flash[i]
        || (base <= i < base + pageSize && device.flash[i] == 0xff)
      ensures rc >= 0 <==> eraseOk(base)
      ensures rc >= 0 ==> forall i | base <= i < base + pageSize :: device.flash[i] == 0xff
    {
      rc := if eraseOk(base) then 0 else -1;
      var done: nat := *;
      var upTo := if rc >= 0 || done > pageSize then pageSize else done;
      var f := device.flash;
      device := device.(flash := seq(|f|, i requires 0 <= i < |f| => if base <= i < base + upTo then 0xff else f[i]));
    }

    /** paged_write; a failed one may have programmed any part of the page. */
    method PagedWrite(base: nat, data: seq<byte>) returns (rc: int)
      requires Valid() && |data| == pageSize && base + pageSize <= |device.flash|
      modifies this`device
      ensures Valid() && device.page == old(device).page && |device.flash| == |old(device).flash|
      ensures rc >= 0 <==> writeOk(base)
      ensures forall i | 0 <= i < |device.flash| && !(base <= i < base + pageSize) :: device.flash[i] == old(device).flash[i]
      ensures forall i | base <= i < base + pageSize ::
        Partly(overwrites, old(device).flash[i], data[i - base], device.flash[i])
      ensures rc >= 0 ==> forall i | base <= i < base + pageSize ::
        device.flash[i] == Program(overwrites, old(device).flash[i], data[i - base])
    {
      hide Partly, Program;
      rc := if writeOk(base) then 0 else -1;
      var f, part: seq<byte> := device.flash, *;
      device := device.(flash := seq(|f|, i requires 0 <= i < |f| =>
        if base <= i < base + pageSize then Result(rc >= 0, f[i], data[i - base], part, i - base) else f[i]));
    }

    /** One byte after a page write: programmed, or whatever a failed write can have left. */
    function Result(ok: bool, before: byte, data: byte, part: seq<byte>, k: nat): (r: byte)
      ensures Partly(overwrites, before, data, r) && (ok ==> r == Program(overwrites, before, data))
    {
      PartlyEnds(overwrites, before, data);
      if ok then Program(overwrites, before, data)
      else if k < |part| && Partly(overwrites, before, data, part[k]) then part[k]
      else before
    }

    /** avr_write_page, for a memory that has a page write. */
    method WritePage(a: nat)
      requires Valid() && a < |device.flash|
      modifies this
      ensures Valid()
      ensures log == old(log) + [Commit(a)]
      ensures device == Apply(old(device), Commit(a), pageSize)
    {
      device := Apply(device, Commit(a), pageSize);
      log := log + [Commit(a)];
    }
  }

  /** The image to be written and the fate of each of its bytes. */
  function ImageOf(buf: seq<byte>, tags: seq<bool>, gets: nat -> bool, wsize: nat): (m: Image)
    requires |buf| == |tags| >= wsize
    ensures ValidImage(m, wsize) && forall i | 0 <= i < wsize :: Reaches(m, i) <==> tags[i] && gets(i)
  {
    Image(buf, tags, seq(wsize, i requires 0 <= i => gets(i)))
  }

  /** The byte loop of avr_write for paged memory, with its flags newpage and
      page_tainted.  The device is asked for exactly the plan; the size is returned
      even if bytes failed. */
  method WriteBytes(pgm: Programmer, mem: Memory, wsize: nat) returns (rc: int)
    requires mem.Valid() && mem.paged && wsize <= mem.size == |pgm.device.flash|
    requires pgm.Valid() && pgm.pageSize == mem.pageSize
    modifies pgm
    ensures pgm.Valid() && rc == wsize
    ensures var plan := Plan(ImageOf(mem.buf[..], mem.tags[..], pgm.gets, wsize), 0, wsize, mem.pageSize);
      && pgm.log == old(pgm.log) + plan
      && InFlash(plan, |old(pgm.device).flash|)
      && pgm.device == Run(old(pgm.device), plan, mem.pageSize)
  {
    hide Run, Plan, Loads, PagePlan, Tainted;
    ghost var m := ImageOf(mem.buf[..], mem.tags[..], pgm.gets, wsize);
    ghost var ps, size, d0, log0 := mem.pageSize, mem.size, pgm.device, pgm.log;
    ghost var lo, base, events := 0, log0, [];
    PlanStarts(d0, m, wsize, ps);
    var newpage, pageTainted := true, false;
    var i := 0;
    while i < wsize
      invariant 0 <= i <= wsize && pgm.Valid() && |pgm.device.flash| == size
      invariant (lo < wsize ==> lo % ps == 0) && lo <= i && (newpage <==> lo == i) && (lo < wsize ==> i < PageEnd(lo, wsize, ps))
      invariant !newpage ==> (pageTainted <==> Tainted(m, lo, i))
      invariant pgm.log == base + Loads(m, lo, i)
      invariant base + Plan(m, lo, wsize, ps) == log0 + Plan(m, 0, wsize, ps)
      invariant pgm.log == log0 + events && InFlash(events, size) && pgm.device == Run(d0, events, ps)
    {
      PageBounds(lo, wsize, ps);
      NextByte(m, lo, i);
      var doWrite := mem.tags[i];
      if newpage {
        pageTainted := doWrite;
      } else {
        pageTainted := pageTainted || doWrite;
      }
      var flushPage;
      if i % mem.pageSize == mem.pageSize - 1 || i == wsize - 1 {
        flushPage, newpage := pageTainted, true;
      } else {
        flushPage, newpage := false, false;
      }
      ghost var now := events;
      events := WriteAndFlush(pgm, i, mem.buf[i], doWrite, flushPage, d0, log0, events);
      LogGrows(log0, now, base, m, lo, i, flushPage, events);
      if newpage {
        PageDone(m, lo, i, wsize, ps);
        base := base + PagePlan(m, lo, i + 1);
        lo := i + 1;
      }
      i := i + 1;
    }
    PlanEnds(m, lo, wsize, ps);
    assert events == (log0 + events)[|log0|..];
    assert Plan(m, 0, wsize, ps) == (log0 + Plan(m, 0, wsize, ps))[|log0|..];
    rc := i;
  }

  /** The end of the loop body: the byte write and the page write, as decided. */
  method WriteAndFlush(pgm: Programmer, i: nat, data: byte, doWrite: bool, flushPage: bool,
                       ghost d0: Device, ghost log0: seq<Event>, ghost events: seq<Event>)
    returns (ghost events': seq<Event>)
    requires pgm.Valid() && i < |pgm.device.flash| && ValidDevice(d0, pgm.pageSize)
    requires |d0.flash| == |pgm.device.flash| && InFlash(events, |d0.flash|)
    requires pgm.log == log0 + events && pgm.device == Run(d0, events, pgm.pageSize)
    modifies pgm
    ensures pgm.Valid() && |pgm.device.flash| == |d0.flash| && InFlash(events', |d0.flash|)
    ensures pgm.log == log0 + events' && pgm.device == Run(d0, events', pgm.pageSize)
    ensures events' == events + (if doWrite then [Load(i, data, pgm.gets(i))] else [])
      + (if flushPage then [Commit(i)] else [])
  {
    hide Run;
    events' := events;
    if doWrite {
      RunLast(d0, events', Load(i, data, pgm.gets(i)), pgm.pageSize);
      events' := events' + [Load(i, data, pgm.gets(i))];
      var rc := pgm.WriteByte(i, data);
    }
    if flushPage {
      RunLast(d0, events', Commit(i), pgm.pageSize);
      events' := events' + [Commit(i)];
      pgm.WritePage(i);
    }
  }

  /** The byte loop for memory that is not paged: only tagged bytes are written. */
  method WriteSingles(pgm: Programmer, mem: Memory, wsize: nat) returns (rc: int)
    requires mem.Valid() && !mem.paged && wsize <= mem.size == |pgm.device.flash| && pgm.Valid()
    modifies pgm`device
    ensures pgm.Valid() && rc == wsize && |pgm.device.flash| == mem.size
    ensures forall i | 0 <= i < mem.size ::
      pgm.device.flash[i] == if i < wsize && mem.tags[i] && pgm.gets(i)
        then Program(pgm.overwrites, old(pgm.device).flash[i], mem.buf[i]) else old(pgm.device).flash[i]
    ensures pgm.device.page == old(pgm.device).page
  {
    hide Program;
    var i := 0;
    while i < wsize
      invariant 0 <= i <= wsize && pgm.Valid() && |pgm.device.flash| == mem.size
      invariant forall j | 0 <= j < mem.size ::
        pgm.device.flash[j] == if j < i && mem.tags[j] && pgm.gets(j)
          then Program(pgm.overwrites, old(pgm.device).flash[j], mem.buf[j]) else old(pgm.device).flash[j]
      invariant pgm.device.page == old(pgm.device).page
    {
      if mem.tags[i] {
        var rcw := pgm.WriteSingle(i, mem.buf[i]);
      }
      i := i + 1;
    }
    rc := i;
  }

  predicate AnyTag(tags: seq<bool>, lo: nat, hi: nat) {
    exists j | lo <= j < hi :: j < |tags| && tags[j]
  }

  /** The page of byte i holds a tagged byte. */
  predicate TaintedPage(tags: seq<bool>, i: nat, pageSize: nat)
    requires pageSize > 0
  {
    AnyTag(tags, BlockStart(i, pageSize), BlockStart(i, pageSize) + pageSize)
  }

  method NeedWrite(mem: Memory, pageaddr: nat) returns (need: bool)
    requires mem.Valid() && pageaddr + mem.pageSize <= mem.size
    ensures need <==> AnyTag(mem.tags[..], pageaddr, pageaddr + mem.pageSize)
  {
    need := false;
    var i := pageaddr;
    while i < pageaddr + mem.pageSize
      invariant pageaddr <= i <= pageaddr + mem.pageSize
      invariant forall j | pageaddr <= j < i :: !mem.tags[j]
    {
      if mem.tags[i] {
        return true;
      }
      i := i + 1;
    }
  }

  lemma PlanStarts(d: Device, m: Image, wsize: nat, pageSize: nat)
    requires ValidDevice(d, pageSize) && ValidImage(m, wsize)
    ensures Loads(m, 0, 0) == [] && Run(d, [], pageSize) == d
  {
  }

  lemma PlanEnds(m: Image, lo: nat, wsize: nat, pageSize: nat)
    requires pageSize > 0 && ValidImage(m, wsize) && lo >= wsize
    ensures Plan(m, lo, wsize, pageSize) == []
    ensures lo == wsize ==> Loads(m, lo, wsize) == []
  {
  }

  lemma NextByte(m: Image, lo: nat, i: nat)
    requires lo <= i && ValidImage(m, i + 1)
    ensures Loads(m, lo, i + 1) == Loads(m, lo, i) + if m.tags[i] then [Load(i, m.buf[i], m.ok[i])] else []
    ensures Tainted(m, lo, i + 1) <==> Tainted(m, lo, i) || m.tags[i]
    ensures !Tainted(m, i, i)
    ensures Loads(m, i + 1, i + 1) == []
  {
  }

  lemma LogGrows(log0: seq<Event>, events: seq<Event>, base: seq<Event>, m: Image, lo: nat, i: nat,
                 flushPage: bool, events': seq<Event>)
    requires lo <= i && ValidImage(m, i + 1)
    requires log0 + events == base + Loads(m, lo, i)
    requires events' == events + (if m.tags[i] then [Load(i, m.buf[i], m.ok[i])] else [])
      + (if flushPage then [Commit(i)] else [])
    ensures log0 + events' == base + (Loads(m, lo, i + 1) + if flushPage then [Commit(i)] else [])
  {
    NextByte(m, lo, i);
    hide Loads;
    var load: seq<Event> := if m.tags[i] then [Load(i, m.buf[i], m.ok[i])] else [];
    var commit: seq<Event> := if flushPage then [Commit(i)] else [];
    assert log0 + events' == (log0 + events) + (load + commit);
    assert base + Loads(m, lo, i) + (load + commit) == base + (Loads(m, lo, i) + load + commit);
  }

  lemma PageDone(m: Image, lo: nat, i: nat, wsize: nat, pageSize: nat)
    requires pageSize > 0 && lo % pageSize == 0 && lo <= i < wsize && ValidImage(m, wsize)
    requires i < PageEnd(lo, wsize, pageSize) && LastOfPage(i, wsize, pageSize)
    ensures Plan(m, lo, wsize, pageSize) == PagePlan(m, lo, i + 1) + Plan(m, i + 1, wsize, pageSize)
    ensures PagePlan(m, lo, i + 1) == Loads(m, lo, i + 1) + if Tainted(m, lo, i + 1) then [Commit(i)] else []
    ensures i + 1 < wsize ==> (i + 1) % pageSize == 0
  {
    PageBounds(lo, wsize, pageSize);
  }

  // ----- avr_write as a whole

  /** What is known of a byte of a tainted page, whatever got through: it lies between what it
      was, or erased, and the image. */
  predicate Safe(ow: bool, before: byte, data: byte, now: byte, autoErase: bool) {
    && (before == 0xff ==> Partly(ow, 0xff, data, now))
    && (!autoErase ==> Partly(ow, before, data, now))
  }

  lemma SafeSteps(ow: bool, before: byte, data: byte, erased: byte, now: byte, autoErase: bool)
    requires erased == before || (autoErase && erased == 0xff)
    requires now == erased || Partly(ow, erased, data, now)
    ensures Safe(ow, before, data, now, autoErase)
  {
    hide Partly;
    PartlyEnds(ow, before, data);
    PartlyEnds(ow, erased, data);
  }

  lemma ProgrammedNothing(before: byte, data: byte)
    ensures PartlyProgrammed(before, data, before)
  {
  }

  /** A byte write that gets through afterwards completes whatever was left. */
  lemma SafeThenLoaded(ow: bool, before: byte, data: byte, now: byte, autoErase: bool)
    requires Safe(ow, before, data, now, autoErase)
    ensures before == 0xff ==> Program(ow, now, data) == data
    ensures !autoErase ==> Program(ow, now, data) == Program(ow, before, data)
    ensures Safe(ow, before, data, Program(ow, now, data), autoErase)
    ensures !ow && !autoErase && data == 0xff ==> now == before && Program(ow, now, data) == before
  {
    hide Partly, Program;
    PartlyEnds(ow, before, data);
    if before == 0xff {
      PartlyThenAll(ow, 0xff, data, now);
      PartlyAgain(ow, 0xff, data, now);
    }
    if !autoErase {
      PartlyThenAll(ow, before, data, now);
      PartlyAgain(ow, before, data, now);
      PartlyThenAll(ow, before, data, Program(ow, now, data));
    }
  }

  /** The programmer cannot write the page at a. */
  predicate PageRefused(pgm: Programmer, a: nat, autoErase: bool) {
    (autoErase && !pgm.eraseOk(a)) || !pgm.writeOk(a)
  }

  /** One page of the paged branch. */
  method WriteOnePage(pgm: Programmer, mem: Memory, pageaddr: nat, autoErase: bool) returns (rc: int)
    requires mem.Valid() && pgm.Valid() && pgm.pageSize == mem.pageSize && mem.size == |pgm.device.flash|
    requires pageaddr + mem.pageSize <= mem.size
    modifies pgm`device
    ensures pgm.Valid() && pgm.device.page == old(pgm.device).page && |pgm.device.flash| == mem.size
    ensures rc < 0 <==> PageRefused(pgm, pageaddr, autoErase)
    ensures forall i | 0 <= i < mem.size && !(pageaddr <= i < pageaddr + mem.pageSize) ::
      pgm.device.flash[i] == old(pgm.device).flash[i]
    ensures forall i | pageaddr <= i < pageaddr + mem.pageSize ::
      Safe(pgm.overwrites, old(pgm.device).flash[i], mem.buf[i], pgm.device.flash[i], autoErase)
    ensures rc >= 0 ==> forall i | pageaddr <= i < pageaddr + mem.pageSize ::
      pgm.device.flash[i] == Program(pgm.overwrites, if autoErase then 0xff else old(pgm.device).flash[i], mem.buf[i])
  {
    hide And, Safe, Partly, Program;
    ghost var f0 := pgm.device.flash;
    rc := 0;
    if autoErase {
      rc := pgm.PageErase(pageaddr);
    }
    ghost var f1 := pgm.device.flash;
    if rc >= 0 {
      rc := pgm.PagedWrite(pageaddr, mem.buf[pageaddr..pageaddr + mem.pageSize]);
    }
    forall i | pageaddr <= i < pageaddr + mem.pageSize
      ensures Safe(pgm.overwrites, f0[i], mem.buf[i], pgm.device.flash[i], autoErase)
    {
      SafeSteps(pgm.overwrites, f0[i], mem.buf[i], f1[i], pgm.device.flash[i], autoErase);
    }
  }

  /** Some page that starts below wsize and holds a tag cannot be written. */
  ghost predicate PageFails(pgm: Programmer, tags: seq<bool>, wsize: nat, pageSize: nat, autoErase: bool)
    requires pageSize > 0
  {
    exists a: nat | a < wsize :: a % pageSize == 0 && AnyTag(tags, a, a + pageSize) && PageRefused(pgm, a, autoErase)
  }

  ghost predicate ByteSafe(ow: bool, before: seq<byte>, f: seq<byte>, buf: seq<byte>, tags: seq<bool>, pageSize: nat, autoErase: bool, i: nat)
    requires pageSize > 0 && |before| == |f| == |buf| == |tags| && |tags| % pageSize == 0 && i < |f|
  {
    if TaintedPage(tags, i, pageSize) then Safe(ow, before[i], buf[i], f[i], autoErase) else f[i] == before[i]
  }

  /** Flash f against what it was before, for every byte of the memory. */
  ghost predicate PagesSafe(ow: bool, before: seq<byte>, f: seq<byte>, buf: seq<byte>, tags: seq<bool>, pageSize: nat, autoErase: bool)
    requires pageSize > 0 && |before| == |f| == |buf| == |tags| && |tags| % pageSize == 0
  {
    forall i | 0 <= i < |f| :: ByteSafe(ow, before, f, buf, tags, pageSize, autoErase, i)
  }

  /** The tagged bytes below done hold what was programmed. */
  ghost predicate TagsWritten(ow: bool, f0: seq<byte>, f: seq<byte>, buf: seq<byte>, tags: seq<bool>, autoErase: bool, done: nat)
    requires |f0| == |f| == |buf| == |tags|
  {
    forall i | 0 <= i < done && i < |f| && tags[i] :: f[i] == Program(ow, if autoErase then 0xff else f0[i], buf[i])
  }

  /** The paged branch of avr_write: pages with a tag are written whole, until one fails. */
  method WritePages(pgm: Programmer, mem: Memory, wsize: nat, autoErase: bool) returns (failure: bool)
    requires mem.Valid() && pgm.Valid() && pgm.pageSize == mem.pageSize && wsize <= mem.size == |pgm.device.flash|
    modifies pgm`device
    ensures pgm.Valid() && pgm.device.page == old(pgm.device).page && |pgm.device.flash| == mem.size
    ensures failure <==> PageFails(pgm, mem.tags[..], wsize, mem.pageSize, autoErase)
    ensures PagesSafe(pgm.overwrites, old(pgm.device).flash, pgm.device.flash, mem.buf[..], mem.tags[..], mem.pageSize, autoErase)
    ensures !failure ==> forall i | 0 <= i < wsize && mem.tags[i] ::
      pgm.device.flash[i] == Program(pgm.overwrites, if autoErase then 0xff else old(pgm.device).flash[i], mem.buf[i])
  {
    hide And, Safe, Partly, Program, PageRefused, ByteSafe, PagesSafe, TagsWritten, AnyTag;
    ghost var f0, buf, tags, ps, ow := pgm.device.flash, mem.buf[..], mem.tags[..], mem.pageSize, pgm.overwrites;
    failure := false;
    var pageaddr := 0;
    ghost var pages := 0;
    assert mem.size == ps * (mem.size / ps);
    NoTagsYet(ow, f0, buf, tags, autoErase);
    while !failure && pageaddr < wsize
      invariant pageaddr == ps * pages && pageaddr <= mem.size
      invariant pgm.Valid() && pgm.device.page == old(pgm.device).page && |pgm.device.flash| == mem.size
      invariant forall i | 0 <= i < pageaddr :: ByteSafe(ow, f0, pgm.device.flash, buf, tags, ps, autoErase, i)
      invariant forall i | pageaddr <= i < mem.size :: pgm.device.flash[i] == f0[i]
      invariant failure ==> PageFails(pgm, tags, wsize, ps, autoErase)
      invariant !failure ==> !PageFails(pgm, tags, pageaddr, ps, autoErase)
      invariant !failure ==> TagsWritten(ow, f0, pgm.device.flash, buf, tags, autoErase, pageaddr)
      decreases !failure, wsize - pageaddr
    {
      NextMultipleFits(ps, pages, mem.size / ps);
      Unique(pageaddr, ps, pages, 0);
      NextPage(pgm, tags, ps, pages, autoErase);
      var need := NeedWrite(mem, pageaddr);
      ghost var f := pgm.device.flash;
      if need {
        var rc := WriteOnePage(pgm, mem, pageaddr, autoErase);
        failure := rc < 0;
      }
      PageStepSafe(ow, f0, f, pgm.device.flash, buf, tags, ps, autoErase, pageaddr);
      if !failure {
        PageStepWritten(ow, f0, f, pgm.device.flash, buf, tags, ps, autoErase, pageaddr);
      }
      pageaddr := pageaddr + mem.pageSize;
      pages := pages + 1;
    }
    RestSafe(ow, f0, pgm.device.flash, buf, tags, ps, autoErase, pageaddr);
    if !failure {
      TagsAllWritten(ow, f0, pgm.device.flash, buf, tags, autoErase, pageaddr, wsize);
    }
  }

  lemma NoTagsYet(ow: bool, f0: seq<byte>, buf: seq<byte>, tags: seq<bool>, autoErase: bool)
    requires |f0| == |buf| == |tags|
    ensures TagsWritten(ow, f0, f0, buf, tags, autoErase, 0)
  {
  }

  lemma TagsAllWritten(ow: bool, f0: seq<byte>, f: seq<byte>, buf: seq<byte>, tags: seq<bool>, autoErase: bool, done: nat, wsize: nat)
    requires |f0| == |f| == |buf| == |tags| && TagsWritten(ow, f0, f, buf, tags, autoErase, done) && wsize <= done && wsize <= |f|
    ensures forall i | 0 <= i < wsize && tags[i] :: f[i] == Program(ow, if autoErase then 0xff else f0[i], buf[i])
  {
    hide Program;
  }

  lemma PageStepWritten(ow: bool, f0: seq<byte>, f: seq<byte>, f': seq<byte>, buf: seq<byte>, tags: seq<bool>, ps: nat,
                        autoErase: bool, pageaddr: nat)
    requires |f0| == |f| == |f'| == |buf| == |tags| && pageaddr + ps <= |f|
    requires TagsWritten(ow, f0, f, buf, tags, autoErase, pageaddr)
    requires forall i | pageaddr <= i < |f| :: f[i] == f0[i]
    requires forall i | 0 <= i < |f| && !(pageaddr <= i < pageaddr + ps) :: f'[i] == f[i]
    requires AnyTag(tags, pageaddr, pageaddr + ps) ==>
      forall i | pageaddr <= i < pageaddr + ps :: f'[i] == Program(ow, if autoErase then 0xff else f[i], buf[i])
    ensures TagsWritten(ow, f0, f', buf, tags, autoErase, pageaddr + ps)
  {
    hide Program;
  }

  lemma RestSafe(ow: bool, f0: seq<byte>, f: seq<byte>, buf: seq<byte>, tags: seq<bool>, ps: nat, autoErase: bool, done: nat)
    requires ps > 0 && |f0| == |f| == |buf| == |tags| && |tags| % ps == 0
    requires forall i | 0 <= i < done && i < |f| :: ByteSafe(ow, f0, f, buf, tags, ps, autoErase, i)
    requires forall i | done <= i < |f| :: f[i] == f0[i]
    ensures PagesSafe(ow, f0, f, buf, tags, ps, autoErase)
  {
    hide Safe;
    forall i | 0 <= i < |f| ensures ByteSafe(ow, f0, f, buf, tags, ps, autoErase, i) {
      if i >= done {
        SafeSteps(ow, f0[i], buf[i], f0[i], f0[i], autoErase);
      }
    }
  }

  /** The pages below the next one are those below this one and this one. */
  lemma NextPage(pgm: Programmer, tags: seq<bool>, pageSize: nat, k: nat, autoErase: bool)
    requires pageSize > 0
    ensures pageSize * k >= 0
    ensures PageFails(pgm, tags, pageSize * k + pageSize, pageSize, autoErase) <==>
      PageFails(pgm, tags, pageSize * k, pageSize, autoErase)
      || (AnyTag(tags, pageSize * k, pageSize * k + pageSize) && PageRefused(pgm, pageSize * k, autoErase))
  {
    hide AnyTag, PageRefused;
    ProductNonNegative(pageSize, k);
    var here := pageSize * k;
    Unique(here, pageSize, k, 0);
    forall a: nat | here <= a < here + pageSize && a % pageSize == 0
      ensures a == here
    {
      AddMultiple(pageSize, k, a - here);
      Unique(a - here, pageSize, 0, a - here);
    }
  }

  lemma PageStepSafe(ow: bool, f0: seq<byte>, f: seq<byte>, f': seq<byte>, buf: seq<byte>, tags: seq<bool>, ps: nat,
                     autoErase: bool, pageaddr: nat)
    requires ps > 0 && |f0| == |f| == |f'| == |buf| == |tags| && |tags| % ps == 0
    requires pageaddr % ps == 0 && pageaddr + ps <= |f|
    requires forall i | 0 <= i < pageaddr :: ByteSafe(ow, f0, f, buf, tags, ps, autoErase, i)
    requires forall i | pageaddr <= i < |f| :: f[i] == f0[i]
    requires forall i | 0 <= i < |f| && !(pageaddr <= i < pageaddr + ps) :: f'[i] == f[i]
    requires if AnyTag(tags, pageaddr, pageaddr + ps)
      then forall i | pageaddr <= i < pageaddr + ps :: Safe(ow, f[i], buf[i], f'[i], autoErase)
      else f' == f
    ensures forall i | 0 <= i < pageaddr + ps :: ByteSafe(ow, f0, f', buf, tags, ps, autoErase, i)
  {
    hide Safe;
    forall i | 0 <= i < pageaddr + ps ensures ByteSafe(ow, f0, f', buf, tags, ps, autoErase, i) {
      if i < pageaddr {
        assert ByteSafe(ow, f0, f, buf, tags, ps, autoErase, i);
      } else {
        OffsetInPage(pageaddr, i, ps);
      }
    }
  }

  /** The size of the units that a write touches as a whole. */
  function Unit(mem: Memory): (u: nat)
    ensures u > 0
  {
    if mem.pageSize == 0 then 1 else mem.pageSize
  }

  /** A byte of a page without a tag keeps its value. */
  ghost predicate Untouched(before: seq<byte>, f: seq<byte>, tags: seq<bool>, pageSize: nat, i: nat)
    requires pageSize > 0 && |before| == |f| == |tags| && |tags| % pageSize == 0 && i < |f|
  {
    !TaintedPage(tags, i, pageSize) ==> f[i] == before[i]
  }

  /** What avr_write leaves of byte i, all ways considered. */
  ghost predicate Written(pgm: Programmer, f0: seq<byte>, f: seq<byte>, buf: seq<byte>, tags: seq<bool>, u: nat,
                          wsize: nat, autoErase: bool, i: nat)
    requires u > 0 && |f0| == |f| == |buf| == |tags| && |tags| % u == 0 && i < |f|
  {
    && (i < wsize && tags[i] && pgm.gets(i) && f0[i] == 0xff ==> f[i] == buf[i])
    && (i < wsize && tags[i] && pgm.gets(i) && !autoErase ==> f[i] == Program(pgm.overwrites, f0[i], buf[i]))
    && (!autoErase ==> Partly(pgm.overwrites, f0[i], buf[i], f[i]))
    && (!pgm.overwrites && !autoErase && buf[i] == 0xff ==> f[i] == f0[i])
    && Untouched(f0, f, tags, u, i)
  }

  /** avr_write: through pages if the programmer and the memory have them, and byte by byte
      otherwise or after a failure.  Whichever way is taken, a tagged byte that gets through ends
      programmed with the image; if no page fails, every tagged byte does. */
  method Write(pgm: Programmer, mem: Memory, size: nat, hasPagedWrite: bool, autoErase: bool) returns (rc: int)
    requires mem.Valid() && pgm.Valid() && pgm.pageSize == Unit(mem) && (mem.paged ==> !pgm.overwrites)
    requires |pgm.device.flash| == mem.size && pgm.device.page == ErasedPage(pgm.pageSize)
    modifies pgm
    ensures pgm.Valid() && pgm.device.page == ErasedPage(pgm.pageSize) && |pgm.device.flash| == mem.size
    ensures rc == if size < mem.size then size else mem.size
    ensures forall i | 0 <= i < mem.size ::
      Written(pgm, old(pgm.device).flash, pgm.device.flash, mem.buf[..], mem.tags[..], Unit(mem), rc, autoErase, i)
    ensures hasPagedWrite && mem.pageSize != 0 && !PageFails(pgm, mem.tags[..], rc, mem.pageSize, autoErase) ==>
      forall i | 0 <= i < rc && mem.tags[i] ::
        pgm.device.flash[i] == Program(pgm.overwrites, if autoErase then 0xff else old(pgm.device).flash[i], mem.buf[i])
  {
    hide And, Safe, Partly, Program, Run, Plan, ByteSafe, Untouched, Reaches, PageFails, Written;
    ghost var f0, buf, tags, u, ow := pgm.device.flash, mem.buf[..], mem.tags[..], Unit(mem), pgm.overwrites;
    var wsize := if size < mem.size then size else mem.size;
    if hasPagedWrite && mem.pageSize != 0 {
      var failure := WritePages(pgm, mem, wsize, autoErase);
      if !failure {
        AfterPages(pgm, f0, pgm.device.flash, buf, tags, u, autoErase, wsize);
        return wsize;
      }
    } else {
      NoPagesYet(ow, f0, buf, tags, u, autoErase);
    }
    ghost var f1, m := pgm.device.flash, ImageOf(buf, tags, pgm.gets, wsize);
    if mem.paged {
      PlanEffect(pgm.device, m, 0, wsize, u);
      rc := WriteBytes(pgm, mem, wsize);
      ByPlan(pgm, f1, pgm.device.flash, buf, tags, wsize);
    } else {
      rc := WriteSingles(pgm, mem, wsize);
    }
    AfterBytes(pgm, f0, f1, pgm.device.flash, buf, tags, u, autoErase, wsize);
  }

  lemma NoPagesYet(ow: bool, f0: seq<byte>, buf: seq<byte>, tags: seq<bool>, pageSize: nat, autoErase: bool)
    requires pageSize > 0 && |f0| == |buf| == |tags| && |tags| % pageSize == 0
    ensures PagesSafe(ow, f0, f0, buf, tags, pageSize, autoErase)
  {
    hide Safe;
    forall i | 0 <= i < |f0| ensures ByteSafe(ow, f0, f0, buf, tags, pageSize, autoErase, i) {
      SafeSteps(ow, f0[i], buf[i], f0[i], f0[i], autoErase);
    }
  }

  lemma AfterPages(pgm: Programmer, f0: seq<byte>, f: seq<byte>, buf: seq<byte>, tags: seq<bool>, pageSize: nat, autoErase: bool, wsize: nat)
    requires pageSize > 0 && |f0| == |f| == |buf| == |tags| >= wsize && |tags| % pageSize == 0
    requires PagesSafe(pgm.overwrites, f0, f, buf, tags, pageSize, autoErase)
    requires forall i | 0 <= i < wsize && tags[i] ::
      f[i] == Program(pgm.overwrites, if autoErase then 0xff else f0[i], buf[i])
    ensures forall i | 0 <= i < |f| :: Written(pgm, f0, f, buf, tags, pageSize, wsize, autoErase, i)
  {
    hide And, Partly, Program, Safe, ByteSafe;
    forall i | 0 <= i < |f|
      ensures Written(pgm, f0, f, buf, tags, pageSize, wsize, autoErase, i)
    {
      ByteFacts(pgm.overwrites, f0, f, buf, tags, pageSize, autoErase, i);
      PartlyEnds(pgm.overwrites, f0[i], buf[i]);
    }
  }

  /** What ByteSafe says, whether or not the page is tainted. */
  lemma ByteFacts(ow: bool, f0: seq<byte>, f: seq<byte>, buf: seq<byte>, tags: seq<bool>, pageSize: nat, autoErase: bool, i: nat)
    requires pageSize > 0 && |f0| == |f| == |buf| == |tags| && |tags| % pageSize == 0 && i < |f|
    requires ByteSafe(ow, f0, f, buf, tags, pageSize, autoErase, i)
    ensures Safe(ow, f0[i], buf[i], f[i], autoErase)
    ensures !autoErase ==> Partly(ow, f0[i], buf[i], f[i])
    ensures !ow && !autoErase && buf[i] == 0xff ==> f[i] == f0[i]
    ensures Untouched(f0, f, tags, pageSize, i)
    ensures !tags[i] || TaintedPage(tags, i, pageSize)
  {
    hide Safe, And, Partly, Program;
    BlockFits(i, pageSize, |tags|);
    SafeSteps(ow, f0[i], buf[i], f0[i], f0[i], autoErase);
    SafeThenLoaded(ow, f0[i], buf[i], f[i], autoErase);
    SafeMeans(ow, f0[i], buf[i], f[i], autoErase);
  }

  lemma SafeMeans(ow: bool, before: byte, data: byte, now: byte, autoErase: bool)
    requires Safe(ow, before, data, now, autoErase)
    ensures !autoErase ==> Partly(ow, before, data, now)
  {
  }

  /** The effect of the byte loop on one byte. */
  predicate ByteLoopDone(pgm: Programmer, f1: seq<byte>, f2: seq<byte>, buf: seq<byte>, tags: seq<bool>, wsize: nat)
    requires |f1| == |f2| == |buf| == |tags|
  {
    forall i | 0 <= i < |f1| ::
      f2[i] == if i < wsize && tags[i] && pgm.gets(i) then Program(pgm.overwrites, f1[i], buf[i]) else f1[i]
  }

  lemma ByPlan(pgm: Programmer, f1: seq<byte>, f2: seq<byte>, buf: seq<byte>, tags: seq<bool>, wsize: nat)
    requires |f1| == |f2| == |buf| == |tags| >= wsize && !pgm.overwrites
    requires ProgrammedBy(f1, f2, ImageOf(buf, tags, pgm.gets, wsize), 0, wsize)
    ensures ByteLoopDone(pgm, f1, f2, buf, tags, wsize)
  {
    hide And, Reaches;
  }

  lemma AfterBytes(pgm: Programmer, f0: seq<byte>, f1: seq<byte>, f2: seq<byte>, buf: seq<byte>, tags: seq<bool>,
                   pageSize: nat, autoErase: bool, wsize: nat)
    requires pageSize > 0 && |f0| == |f1| == |f2| == |buf| == |tags| >= wsize && |tags| % pageSize == 0
    requires PagesSafe(pgm.overwrites, f0, f1, buf, tags, pageSize, autoErase)
    requires ByteLoopDone(pgm, f1, f2, buf, tags, wsize)
    ensures forall i | 0 <= i < |f0| :: Written(pgm, f0, f2, buf, tags, pageSize, wsize, autoErase, i)
  {
    hide And, Partly, Program, Safe, ByteSafe;
    forall i | 0 <= i < |f0|
      ensures Written(pgm, f0, f2, buf, tags, pageSize, wsize, autoErase, i)
    {
      ByteFacts(pgm.overwrites, f0, f1, buf, tags, pageSize, autoErase, i);
      SafeThenLoaded(pgm.overwrites, f0[i], buf[i], f1[i], autoErase);
      SafeMeans(pgm.overwrites, f0[i], buf[i], f2[i], autoErase);
    }
  }
}
