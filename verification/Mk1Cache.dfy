/** The JTAG ICE mkI driver: byte reads through a page cache, byte and paged writes, and
    chip erase. */
module Mk1Cache {
  import opened CText
  import opened BitMask
  import opened Mk1Spec
  import Division

  const MAXTRIES: nat := 3

  /** The memory types of the commands that the driver sends. */
  datatype MemType = FlashPage | EepromPage | FuseBits | Spm | EepromByte

  function MemOf(t: MemType, n: nat): Mem {
    match t
    case FlashPage => Flash
    case Spm => Flash
    case EepromPage => Eeprom
    case EepromByte => Eeprom
    case FuseBits => Fuse(n)
  }

  /** A memory command: type, count byte and three address bytes; flash is counted and
      addressed in words. */
  datatype Command = Command(t: MemType, count: octet, addr: nat)

  function First(cmd: Command): nat {
    if cmd.t == FlashPage || cmd.t == Spm then 2 * cmd.addr else cmd.addr
  }

  function Length(cmd: Command): nat {
    if cmd.t == FlashPage || cmd.t == Spm then 2 * (cmd.count as nat + 1) else cmd.count as nat + 1
  }

  /** u32_to_b3 */
  function ToB3(l: nat): nat {
    l % 0x100_0000
  }

  /** Masks, count byte and address bytes name the page that holds addr. */
  lemma FlashPageCommand(g: Geometry, dev: Contents, addr: nat)
    requires ValidGeometry(g, dev) && addr < |dev.flash|
    ensures var ps := PageSize(g, Flash);
      var paddr := BitAnd(addr, NotMask(ps - 1));
      && 2 <= ps <= 512 && ps % 2 == 0 && BitAnd(addr, ps - 1) < ps
      && paddr + ps <= |dev.flash|
      && First(Command(FlashPage, ps / 2 - 1, ToB3(paddr / 2))) == paddr
      && Length(Command(FlashPage, ps / 2 - 1, ToB3(paddr / 2))) == ps
  {
    hide BitAnd, NotMask, Pow2, First, Length, ToB3;
    var ps := PageSize(g, Flash);
    MasksSplit(addr, g.flashBits);
    PageInside(addr, ps, |dev.flash|);
    EvenPage(g.flashBits, addr);
    WordCommand(ps, addr - addr % ps);
  }

  /** Pages of flash are whole words and start at one. */
  lemma EvenPage(k: nat, addr: nat)
    requires k >= 1
    ensures Pow2(k) % 2 == 0 && Pow2(k) >= 2 && (addr - addr % Pow2(k)) % 2 == 0
  {
    var p := Pow2(k - 1);
    assert Pow2(k) == 2 * p;
    hide Pow2;
    HalfRemainder(addr, p);
    Doubled(p);
    Doubled(addr / 2 - (addr / 2) % p);
    assert addr - addr % (2 * p) == 2 * (addr / 2 - (addr / 2) % p);
  }

  lemma Doubled(x: int)
    ensures (2 * x) % 2 == 0
  {
  }

  lemma WordCommand(ps: nat, paddr: nat)
    requires 2 <= ps <= 512 && ps % 2 == 0 && paddr % 2 == 0 && paddr < 0x100_0000
    ensures First(Command(FlashPage, ps / 2 - 1, ToB3(paddr / 2))) == paddr
    ensures Length(Command(FlashPage, ps / 2 - 1, ToB3(paddr / 2))) == ps
  {
  }

  lemma FuseCommand(g: Geometry, dev: Contents)
    requires ValidGeometry(g, dev)
    ensures |dev.fuses| == 3
    ensures First(Command(FuseBits, 2, 0)) == 0 && Length(Command(FuseBits, 2, 0)) == 3
  {
  }

  lemma EepromPageCommand(g: Geometry, dev: Contents, addr: nat)
    requires ValidGeometry(g, dev) && addr < |dev.eeprom|
    ensures var ps := PageSize(g, Eeprom);
      var paddr := BitAnd(addr, NotMask(ps - 1));
      && 1 <= ps <= 256 && BitAnd(addr, ps - 1) < ps
      && paddr + ps <= |dev.eeprom|
      && First(Command(EepromPage, ps - 1, ToB3(paddr))) == paddr
      && Length(Command(EepromPage, ps - 1, ToB3(paddr))) == ps
  {
    hide BitAnd, NotMask, Pow2;
    var ps := PageSize(g, Eeprom);
    MasksSplit(addr, g.eepromBits);
    PowersOfTwo();
    PowMonotone(g.eepromBits, 8);
    PageInside(addr, ps, |dev.eeprom|);
  }

  /** mem with page put at a. */
  function Overlaid(mem: seq<octet>, a: nat, page: seq<octet>): (r: seq<octet>)
    requires a + |page| <= |mem|
    ensures |r| == |mem|
    ensures forall i | 0 <= i < |mem| :: r[i] == if a <= i < a + |page| then page[i - a] else mem[i]
  {
    mem[..a] + page + mem[a + |page|..]
  }

  /** One byte after a write that may have failed. */
  predicate Touched(m: Mem, was: octet, datum: octet, now: octet, ok: bool) {
    now == Program(m, was, datum) || (!ok && now == was)
  }

  /** A page after a write of which done tells the bytes that were programmed. */
  function Mixed(m: Mem, was: seq<octet>, data: seq<octet>, done: seq<bool>, ok: bool): (r: seq<octet>)
    requires |was| == |data| == |done|
    ensures |r| == |was|
    ensures forall k | 0 <= k < |was| :: Touched(m, was[k], data[k], r[k], ok)
  {
    seq(|was|, k requires 0 <= k < |was| => if ok || done[k] then Program(m, was[k], data[k]) else was[k])
  }

  /** A memory after data were sent for the bytes from a on. */
  predicate DataSent(m: Mem, a: nat, data: seq<octet>, was: seq<octet>, now: seq<octet>, ok: bool) {
    && |now| == |was|
    && forall i {:trigger now[i]} | 0 <= i < |was| ::
         if a <= i < a + |data| then Touched(m, was[i], data[i - a], now[i], ok) else now[i] == was[i]
  }

  datatype Reply = NoReply | Refused | Accepted

  /** The ICE with its target: every exchange may fail. */
  class Ice {
    var dev: Contents
    const eesave: bool

    /** An exchange that does not touch the memories. */
    method Exchange() returns (ok: bool)
    {
      ok := *;
    }

    /** The reply to the first part of a page write. */
    method Ask() returns (r: Reply)
    {
      r := *;
    }

    method ReadMem(cmd: Command) returns (ok: bool, resp: seq<octet>)
      ensures ok ==>
        var mem := Memory(dev, MemOf(cmd.t, 0));
        First(cmd) + Length(cmd) <= |mem| && resp == mem[First(cmd)..First(cmd) + Length(cmd)]
    {
      ok := *;
      resp := [];
      var mem := Memory(dev, MemOf(cmd.t, 0));
      if First(cmd) + Length(cmd) > |mem| {
        ok := false;
      } else {
        resp := mem[First(cmd)..First(cmd) + Length(cmd)];
      }
    }

    /** The data of a page write; each byte may have been programmed or not if the reply is bad. */
    method WritePage(cmd: Command, data: seq<octet>) returns (r: Reply)
      requires cmd.t == FlashPage || cmd.t == EepromPage
      requires First(cmd) + Length(cmd) <= |Memory(dev, MemOf(cmd.t, 0))| && |data| == Length(cmd)
      modifies this
      ensures var m := MemOf(cmd.t, 0); var mem, mem' := Memory(old(dev), m), Memory(dev, m);
        && dev == WithMemory(old(dev), m, mem')
        && DataSent(m, First(cmd), data, mem, mem', r == Accepted)
    {
      hide Program, First, Length, Touched;
      r := *;
      var m, a, n := MemOf(cmd.t, 0), First(cmd), Length(cmd);
      var mem := Memory(dev, m);
      var done: seq<bool> := *;
      if |done| != n {
        done := seq(n, _ => true);
      }
      dev := WithMemory(dev, m, Overlaid(mem, a, Mixed(m, mem[a..a + n], data, done, r == Accepted)));
    }

    /** The data of a write of one byte. */
    method WriteOne(cmd: Command, data: octet) returns (ok: bool)
      requires cmd.t == EepromByte || cmd.t == FuseBits
      requires cmd.addr < |Memory(dev, MemOf(cmd.t, 0))|
      modifies this
      ensures ByteWritten(old(dev), MemOf(cmd.t, 0), cmd.addr, data, if ok then 0 else -1, dev)
    {
      ok := *;
      var done := *;
      var m := MemOf(cmd.t, 0);
      if ok || done {
        dev := WithMemory(dev, m, Memory(dev, m)[cmd.addr := data]);
      }
    }

    /** The data of a write of one word of flash: what becomes of the word is not known. */
    method WriteWord(cmd: Command) returns (ok: bool)
      requires cmd.t == Spm && First(cmd) + 1 < |dev.flash|
      modifies this
      ensures forall at | at / 2 == cmd.addr :: ByteWritten(old(dev), Flash, at, 0, if ok then 0 else -1, dev)
    {
      ok := *;
      var a, b: octet, c: octet := First(cmd), *, *;
      dev := dev.(flash := dev.flash[a := b][a + 1 := c]);
    }

    method Erase(ghost g: Geometry) returns (ok: bool, ghost erased: bool)
      requires g.eesave == eesave
      modifies this
      ensures dev == (if erased then Erased(g, old(dev)) else old(dev)) && (ok ==> erased)
    {
      ok := *;
      var e := *;
      if ok || e {
        var n, k := |dev.flash|, |dev.eeprom|;
        dev := dev.(flash := seq(n, _ => 0xff), eeprom := if eesave then dev.eeprom else seq(k, _ => 0xff));
      }
      erased := ok || e;
    }
  }

  /** One page cache of the driver's private data. */
  class PageCache {
    var pageaddr: nat
    var pagecache: array<octet>

    constructor (pagesize: nat)
      ensures pageaddr == INVALID && pagecache.Length == pagesize && fresh(pagecache)
    {
      pageaddr := INVALID;
      pagecache := new octet[pagesize];
    }

    function Value(): Cache
      reads this, pagecache
    {
      Cache(pageaddr, pagecache[..])
    }
  }

  function PageCommand(m: Mem, ps: nat, addr: nat): Command
    requires 0 < ps <= 256 && !m.Fuse? && (m.Flash? ==> ps >= 2)
  {
    if m.Flash? then Command(FlashPage, ps / 2 - 1, ToB3(addr / 2)) else Command(EepromPage, ps - 1, ToB3(addr))
  }

  /** The data of the page at addr. */
  function PageData(j: PageJob, addr: nat): (d: seq<octet>)
    requires j.ps > 0 && addr + j.ps <= |j.image|
    ensures |d| == j.ps
  {
    var block := if j.n < j.ps then j.n else j.ps;
    j.image[addr..addr + block] + Ones(j.ps - block)
  }

  class Jtagmk1 {
    const flash: PageCache
    const eeprom: PageCache
    const ice: Ice
    const g: Geometry
    var prog_enabled: bool

    ghost predicate Valid()
      reads this, ice, flash, eeprom
    {
      && flash != eeprom && flash.pagecache != eeprom.pagecache
      && g.eesave == ice.eesave && ValidGeometry(g, ice.dev)
      && flash.pagecache.Length == PageSize(g, Flash) && eeprom.pagecache.Length == PageSize(g, Eeprom)
    }

    ghost function Now(): State
      reads this, ice, flash, eeprom, flash.pagecache, eeprom.pagecache
    {
      State(ice.dev, flash.Value(), eeprom.Value())
    }

    /** The driver after jtagmkI_initialize has first allocated the caches. */
    constructor (ice: Ice, g: Geometry)
      requires g.eesave == ice.eesave && ValidGeometry(g, ice.dev)
      ensures Valid() && this.ice == ice && this.g == g && fresh(flash) && fresh(eeprom)
      ensures NoPages(Now()) && ice.dev == old(ice.dev)
    {
      this.ice, this.g, this.prog_enabled := ice, g, false;
      var f := new PageCache(PageSize(g, Flash));
      var e := new PageCache(PageSize(g, Eeprom));
      this.flash, this.eeprom := f, e;
    }

    function CacheFor(m: Mem): PageCache
    {
      if m.Eeprom? then eeprom else flash
    }

    method ProgramEnable() returns (rc: int)
      modifies this`prog_enabled
    {
      if prog_enabled {
        return 0;
      }
      var ok := ice.Exchange();
      if !ok {
        return -1;
      }
      prog_enabled := true;
      rc := 0;
    }

    method ProgramDisable() returns (rc: int)
      modifies this`prog_enabled
    {
      if !prog_enabled {
        return 0;
      }
      var ok := ice.Exchange();
      if !ok {
        return -1;
      }
      prog_enabled := false;
      rc := 0;
    }

    method ReadByte(m: Mem, addr0: nat) returns (rc: int, value: octet)
      requires Valid() && Place(m, addr0) < |Memory(ice.dev, m)|
      modifies this`prog_enabled, flash, eeprom, flash.pagecache, eeprom.pagecache
      ensures Valid() && flash.pagecache == old(flash.pagecache) && eeprom.pagecache == old(eeprom.pagecache)
      ensures ReadNext(g, old(Now()), m, addr0, Outcome(rc, value, false, false), Now())
    {
      hide Pow2, BitAnd, NotMask, ToB3, First, Length, ReadNext, ValidGeometry, PageSize;
      rc, value := -1, 0;
      ReadFailed(g, Now(), m, addr0, 0);
      var r := ProgramEnable();
      if r < 0 {
        return;
      }
      if m.Flash? {
        FlashPageCommand(g, ice.dev, addr0);
      } else if m.Eeprom? {
        EepromPageCommand(g, ice.dev, addr0);
      } else {
        FuseCommand(g, ice.dev);
      }
      var addr, paddr, pagesize := addr0, 0, 0;
      var c := CacheFor(m);
      var t := FuseBits;
      match m {
        case Flash =>
          t := FlashPage;
          pagesize := PageSize(g, Flash);
          paddr := BitAnd(addr, NotMask(pagesize - 1));
        case Eeprom =>
          t := EepromPage;
          pagesize := PageSize(g, Eeprom);
          paddr := BitAnd(addr, NotMask(pagesize - 1));
        case Fuse(n) =>
          addr := n;
      }
      if pagesize > 0 && paddr == c.pageaddr {
        ReadHit(g, Now(), m, addr0);
        value := c.pagecache[BitAnd(addr, pagesize - 1)];
        return 0, value;
      }
      var cmd: Command;
      if pagesize > 0 {
        if t == FlashPage {
          cmd := Command(t, pagesize / 2 - 1, ToB3(paddr / 2));
        } else {
          cmd := Command(t, pagesize - 1, ToB3(paddr));
        }
      } else {
        cmd := Command(t, 3 - 1, 0);
      }
      var ok, resp := ice.ReadMem(cmd);
      if !ok {
        return;
      }
      if pagesize > 0 {
        value := Fill(m, addr, paddr, resp);
      } else {
        ReadFuse(g, Now(), addr, addr0);
        value := resp[addr];
      }
      rc := 0;
    }

    /** memcpy of the reply into the cache. */
    method CopyPage(dst: array<octet>, src: seq<octet>)
      requires dst.Length == |src|
      modifies dst
      ensures dst[..] == src
    {
      var i := 0;
      while i < |src|
        invariant 0 <= i <= |src| && dst[..i] == src[..i]
      {
        dst[i] := src[i];
        i := i + 1;
      }
    }

    /** A page from the device becomes the cached page and gives the byte. */
    method Fill(m: Mem, addr: nat, paddr: nat, page: seq<octet>) returns (value: octet)
      requires Valid() && !m.Fuse? && addr < |Memory(ice.dev, m)|
      requires CacheFor(m).pageaddr != paddr == BitAnd(addr, NotMask(PageSize(g, m) - 1))
      requires BitAnd(addr, PageSize(g, m) - 1) < PageSize(g, m) && paddr + PageSize(g, m) <= |Memory(ice.dev, m)|
      requires page == Memory(ice.dev, m)[paddr..paddr + PageSize(g, m)]
      modifies flash, eeprom, flash.pagecache, eeprom.pagecache
      ensures Valid() && flash.pagecache == old(flash.pagecache) && eeprom.pagecache == old(eeprom.pagecache)
      ensures ReadNext(g, old(Now()), m, addr, Outcome(0, value, false, false), Now())
    {
      hide Pow2, BitAnd, NotMask, ReadNext, PageSize, ValidGeometry;
      ReadMiss(g, Now(), m, addr, paddr, BitAnd(addr, PageSize(g, m) - 1));
      var c := CacheFor(m);
      c.pageaddr := paddr;
      CopyPage(c.pagecache, page);
      assert Now() == WithCache(old(Now()), m, Cache(paddr, page));
      value := c.pagecache[BitAnd(addr, PageSize(g, m) - 1)];
    }

    /** Marks the cached page of a memory as invalid. */
    method Forget(m: Mem)
      requires Valid() && !m.Fuse?
      modifies flash`pageaddr, eeprom`pageaddr
      ensures Valid() && CacheFor(m).pageaddr == INVALID && Forgotten(old(Now()), m, Now()) && Now().dev == old(Now()).dev
    {
      hide Pow2;
      var c := CacheFor(m);
      c.pageaddr := INVALID;
    }

    method WriteByte(m: Mem, addr0: nat, data: octet) returns (rc: int)
      requires Valid() && Place(m, addr0) < |Memory(ice.dev, m)|
      modifies this`prog_enabled, ice, flash`pageaddr, eeprom`pageaddr
      ensures Valid()
      ensures Next(g, old(Now()), Op.WriteByte(m, addr0, data), Outcome(rc, 0, false, false), Now())
    {
      hide Pow2;
      rc := -1;
      var addr, t := addr0, FuseBits;
      match m {
        case Flash =>
          t := Spm;
          Forget(m);
        case Eeprom =>
          t := EepromByte;
          Forget(m);
        case Fuse(n) =>
          addr := n;
      }
      NotWritten(ice.dev, m, addr, data);
      var r;
      if m.Fuse? {
        r := ProgramEnable();
      } else {
        r := ProgramDisable();
      }
      if r < 0 {
        return;
      }
      var cmd := Command(t, 1 - 1, ToB3(if t == Spm then addr / 2 else addr));
      var ok := ice.Exchange();
      if !ok {
        return;
      }
      SmallAddress(g, ice.dev, m, addr);
      if t == Spm {
        ok := ice.WriteWord(cmd);
      } else {
        ok := ice.WriteOne(cmd, data);
      }
      if ok {
        rc := 0;
      }
    }

    /** jtagmkI_paged_write; page_size is the page size of the memory. */
    method PagedWrite(m: Mem, page_size0: nat, addr0: nat, n_bytes: nat, image: array<octet>) returns (rc: int)
      requires Valid() && !m.Fuse? && page_size0 == PageSize(g, m)
      requires JobFits(PageJob(m, addr0, n_bytes, image[..], page_size0), Memory(ice.dev, m))
      modifies this`prog_enabled, ice, flash`pageaddr, eeprom`pageaddr
      ensures Valid()
      ensures Next(g, old(Now()), Op.PagedWrite(PageJob(m, addr0, n_bytes, image[..], page_size0)),
                   Outcome(rc, 0, false, false), Now())
      ensures var mem, mem' := Memory(old(ice.dev), m), Memory(ice.dev, m);
        && |mem'| == |mem| == image.Length
        && (rc >= 0 ==> forall i | addr0 <= i < addr0 + n_bytes ::
              mem'[i] == if m.Flash? then BitAnd(mem[i], image[i]) else image[i])
        && (forall i | 0 <= i < |mem| && (i < addr0 || i - i % page_size0 >= addr0 + n_bytes) :: mem'[i] == mem[i])
    {
      hide Pow2, PageSize, ValidGeometry, PagesWritten, BitAnd;
      rc := WritePages(m, page_size0, addr0, n_bytes, image);
      ImageWritten(old(ice.dev), PageJob(m, addr0, n_bytes, image[..], page_size0), rc, ice.dev);
    }

    /** The body of jtagmkI_paged_write, as a step of the state machine. */
    method WritePages(m: Mem, page_size0: nat, addr0: nat, n_bytes: nat, image: array<octet>) returns (rc: int)
      requires Valid() && !m.Fuse? && page_size0 == PageSize(g, m)
      requires JobFits(PageJob(m, addr0, n_bytes, image[..], page_size0), Memory(ice.dev, m))
      modifies this`prog_enabled, ice, flash`pageaddr, eeprom`pageaddr
      ensures Valid()
      ensures Next(g, old(Now()), Op.PagedWrite(PageJob(m, addr0, n_bytes, image[..], page_size0)),
                   Outcome(rc, 0, false, false), Now())
    {
      hide Pow2, Progress, PageSize, ValidGeometry;
      ghost var j := PageJob(m, addr0, n_bytes, image[..], page_size0);
      ghost var mem0 := Memory(ice.dev, m);
      NothingDone(j, ice.dev);
      rc := -1;
      var r := ProgramEnable();
      if r < 0 || page_size0 > 256 {
        return;
      }
      Forget(m);
      var page_size, addr, maxaddr := page_size0, addr0, addr0 + n_bytes;
      while addr < maxaddr
        invariant Valid() && addr0 <= addr && addr % page_size == 0
        invariant flash.pageaddr == old(flash.pageaddr) || m.Flash?
        invariant eeprom.pageaddr == old(eeprom.pageaddr) || m.Eeprom?
        invariant CacheFor(m).pageaddr == INVALID
        invariant ice.dev == WithMemory(old(ice.dev), m, Memory(ice.dev, m))
        invariant Progress(j, mem0, Memory(ice.dev, m), addr, addr)
        decreases maxaddr - addr
      {
        JobInside(j, mem0, Memory(ice.dev, m), addr, addr);
        NextAligned(addr, page_size);
        var ok := PageWithRetries(m, page_size, addr, n_bytes, image, j, mem0);
        if !ok {
          WiderProgress(j, mem0, Memory(ice.dev, m), addr, addr + page_size, 0, |mem0|);
          return;
        }
        addr := addr + page_size;
      }
      AllDone(j, mem0, Memory(ice.dev, m), addr);
      rc := n_bytes;
    }

    /** One turn of the page loop: the write command and the data, with retries. */
    method PageWithRetries(m: Mem, page_size: nat, addr: nat, n_bytes: nat, image: array<octet>,
                           ghost j: PageJob, ghost mem0: seq<octet>) returns (ok: bool)
      requires Valid() && !m.Fuse? && page_size == PageSize(g, m) <= 256
      requires JobFits(j, mem0) && j == PageJob(m, j.addr, n_bytes, image[..], page_size)
      requires j.addr <= addr < j.addr + n_bytes && addr % page_size == 0
      requires Progress(j, mem0, Memory(ice.dev, m), addr, addr)
      modifies ice
      ensures Valid() && ice.dev == WithMemory(old(ice.dev), m, Memory(ice.dev, m))
      ensures Progress(j, mem0, Memory(ice.dev, m), if ok then addr + page_size else addr, addr + page_size)
    {
      hide Pow2, Progress, PageSize, ValidGeometry, First, Length, ToB3, JobFits, Datum, InJob, Touched;
      var tries := 0;
      ok := false;
      WiderProgress(j, mem0, Memory(ice.dev, m), addr, addr, addr, addr + page_size);
      while !ok
        invariant Valid() && ice.dev == WithMemory(old(ice.dev), m, Memory(ice.dev, m))
        invariant tries <= MAXTRIES
        invariant Progress(j, mem0, Memory(ice.dev, m), if ok then addr + page_size else addr, addr + page_size)
        decreases !ok, MAXTRIES - tries
      {
        if tries != 0 {
          var synced := ice.Exchange();
          if !synced {
            return;
          }
        }
        var reply := ice.Ask();
        if reply == NoReply {
          return;
        }
        if reply == Accepted {
          reply := SendPage(m, page_size, addr, n_bytes, image, j, mem0);
          if reply == NoReply {
            return;
          }
          ok := reply == Accepted;
        }
        if !ok {
          if tries >= MAXTRIES {
            return;
          }
          tries := tries + 1;
        }
      }
    }

    /** The second part of a page write: the data, padded to a page. */
    method SendPage(m: Mem, page_size: nat, addr: nat, n_bytes: nat, image: array<octet>,
                    ghost j: PageJob, ghost mem0: seq<octet>) returns (reply: Reply)
      requires Valid() && !m.Fuse? && page_size == PageSize(g, m) <= 256
      requires JobFits(j, mem0) && j == PageJob(m, j.addr, n_bytes, image[..], page_size)
      requires j.addr <= addr < j.addr + n_bytes && addr % page_size == 0
      requires Progress(j, mem0, Memory(ice.dev, m), addr, addr + page_size)
      modifies ice
      ensures Valid() && ice.dev == WithMemory(old(ice.dev), m, Memory(ice.dev, m))
      ensures Progress(j, mem0, Memory(ice.dev, m), if reply == Accepted then addr + page_size else addr, addr + page_size)
    {
      hide Pow2, Progress, PageSize, ValidGeometry, First, Length, ToB3, Datum, InJob, DataSent;
      JobInside(j, mem0, Memory(ice.dev, m), addr, addr + page_size);
      AlignedCommand(g, ice.dev, m, addr, page_size);
      var block_size := if n_bytes < page_size then n_bytes else page_size;
      var datacmd := image[addr..addr + block_size] + Ones(page_size - block_size);
      assert datacmd == PageData(j, addr);
      ghost var before := Memory(ice.dev, m);
      reply := ice.WritePage(PageCommand(m, page_size, addr), datacmd);
      SameLength(m, addr, datacmd, before, Memory(ice.dev, m), reply == Accepted);
      PageDone(j, mem0, before, Memory(ice.dev, m), addr, reply == Accepted);
      KeepsGeometry(g, old(ice.dev), m, Memory(ice.dev, m));
    }

    /** The cache part of jtagmkI_initialize: earlier steps may fail before the caches are
        renewed, later ones after. */
    method Initialize(hasJtag: bool) returns (rc: int, ghost forgot: bool)
      requires Valid()
      modifies this`prog_enabled, flash, eeprom, flash.pagecache, eeprom.pagecache
      ensures Valid()
      ensures Next(g, old(Now()), Op.Initialize, Outcome(rc, 0, false, forgot), Now())
    {
      hide Pow2;
      rc, forgot := -1, false;
      if !hasJtag {
        return;
      }
      var ok := ice.Exchange();
      if !ok {
        return;
      }
      flash.pagecache := new octet[PageSize(g, Flash)];
      eeprom.pagecache := new octet[PageSize(g, Eeprom)];
      flash.pageaddr := INVALID;
      eeprom.pageaddr := INVALID;
      forgot := true;
      ok := ice.Exchange();
      if !ok {
        return;
      }
      var r, b := ReadByte(Fuse(1), 1);
      if r < 0 {
        return;
      }
      rc := 0;
    }

    method ChipErase(hasJtag: bool) returns (rc: int, ghost erased: bool, ghost forgot: bool)
      requires Valid()
      modifies this`prog_enabled, ice, flash, eeprom, flash.pagecache, eeprom.pagecache
      ensures Valid()
      ensures Next(g, old(Now()), Op.ChipErase, Outcome(rc, 0, erased, forgot), Now())
    {
      hide Pow2;
      forgot := false;
      var ok;
      ok, erased := ice.Erase(g);
      if !ok {
        return -1, erased, false;
      }
      var rc0;
      rc0, forgot := Initialize(hasJtag);
      rc := 0;
    }
  }

  lemma AlignedCommand(g: Geometry, dev: Contents, m: Mem, addr: nat, ps: nat)
    requires ValidGeometry(g, dev) && !m.Fuse? && ps == PageSize(g, m) <= 256
    requires addr < |Memory(dev, m)| && addr % ps == 0
    ensures (m.Flash? ==> ps >= 2) && addr + ps <= |Memory(dev, m)|
    ensures First(PageCommand(m, ps, addr)) == addr && Length(PageCommand(m, ps, addr)) == ps
  {
    hide BitAnd, NotMask, First, Length, Pow2;
    MasksSplit(addr, if m.Flash? then g.flashBits else g.eepromBits);
    if m.Flash? {
      FlashPageCommand(g, dev, addr);
    } else {
      EepromPageCommand(g, dev, addr);
    }
  }

  lemma KeepsGeometry(g: Geometry, dev: Contents, m: Mem, mem: seq<octet>)
    requires ValidGeometry(g, dev) && |mem| == |Memory(dev, m)|
    ensures ValidGeometry(g, WithMemory(dev, m, mem))
  {
    hide Pow2;
  }

  lemma NothingDone(j: PageJob, dev: Contents)
    requires JobFits(j, Memory(dev, j.m))
    ensures PagesWritten(dev, j, -1, dev)
    ensures Progress(j, Memory(dev, j.m), Memory(dev, j.m), j.addr, j.addr)
  {
    hide Datum, Program;
  }

  /** Fewer bytes for sure, more perhaps. */
  lemma WiderProgress(j: PageJob, mem0: seq<octet>, mem: seq<octet>, sure: nat, maybe: nat, sure': nat, maybe': nat)
    requires JobFits(j, mem0) && Progress(j, mem0, mem, sure, maybe) && sure' <= sure && maybe <= maybe'
    ensures Progress(j, mem0, mem, sure', maybe')
  {
    hide Datum, Program, InJob;
  }

  /** Address i of the page at addr, which the job reaches. */
  lemma InPage(j: PageJob, addr: nat, i: nat)
    requires j.ps > 0 && addr % j.ps == 0 && addr <= i < addr + j.ps && j.addr <= addr < j.addr + j.n
    ensures InJob(j, i) && i % j.ps == i - addr
  {
    var k := addr / j.ps;
    assert addr == j.ps * k;
    Division.AddMultiple(j.ps, k, i - addr);
    Division.Unique(i - addr, j.ps, 0, i - addr);
  }

  lemma PageDatum(j: PageJob, addr: nat, i: nat)
    requires j.ps > 0 && addr + j.ps <= |j.image| && addr <= i < addr + j.ps && i % j.ps == i - addr
    ensures PageData(j, addr)[i - addr] == Datum(j, i)
  {
  }

  lemma PageDone(j: PageJob, mem0: seq<octet>, was: seq<octet>, now: seq<octet>, addr: nat, ok: bool)
    requires JobFits(j, mem0) && addr % j.ps == 0 && j.addr <= addr < j.addr + j.n && addr + j.ps <= |mem0|
    requires Progress(j, mem0, was, addr, addr + j.ps) && DataSent(j.m, addr, PageData(j, addr), was, now, ok)
    ensures Progress(j, mem0, now, if ok then addr + j.ps else addr, addr + j.ps)
  {
    hide Datum, Program, PageData, InJob;
    forall i {:trigger now[i]} | 0 <= i < |mem0|
      ensures now[i] == mem0[i] || (InJob(j, i) && i < addr + j.ps && now[i] == Program(j.m, mem0[i], Datum(j, i)))
      ensures InJob(j, i) && i < addr ==> now[i] == Program(j.m, mem0[i], Datum(j, i))
      ensures ok && InJob(j, i) && i < addr + j.ps ==> now[i] == Program(j.m, mem0[i], Datum(j, i))
    {
      assert was[i] == was[i];
      if addr <= i < addr + j.ps {
        InPage(j, addr, i);
        PageDatum(j, addr, i);
        ProgramTwice(j.m, mem0[i], Datum(j, i));
      }
    }
  }

  lemma SameLength(m: Mem, a: nat, data: seq<octet>, was: seq<octet>, now: seq<octet>, ok: bool)
    requires DataSent(m, a, data, was, now, ok)
    ensures |now| == |was|
  {
  }

  lemma JobInside(j: PageJob, mem0: seq<octet>, mem: seq<octet>, addr: nat, maybe: nat)
    requires JobFits(j, mem0) && Progress(j, mem0, mem, addr, maybe) && addr < j.addr + j.n && addr % j.ps == 0
    ensures addr < |mem| == |mem0| == |j.image| && addr + j.ps <= |mem|
  {
    hide Datum, Program, InJob;
    PageInside(addr, j.ps, |mem0|);
  }

  /** Once the loop is past the end, every byte of the job is done. */
  lemma AllDone(j: PageJob, mem0: seq<octet>, mem: seq<octet>, addr: nat)
    requires JobFits(j, mem0) && Progress(j, mem0, mem, addr, addr) && addr % j.ps == 0 && addr >= j.addr + j.n
    ensures Progress(j, mem0, mem, |mem0|, |mem0|)
  {
    hide Datum, Program;
    forall i {:trigger mem[i]} | 0 <= i < |mem0| && InJob(j, i)
      ensures i < addr
    {
      PageBefore(i, addr, j.ps);
    }
  }

  lemma NextAligned(addr: nat, ps: nat)
    requires ps > 0 && addr % ps == 0
    ensures (addr + ps) % ps == 0
  {
    Division.AddMultiple(ps, 1, addr);
  }

  lemma PageBefore(i: nat, addr: nat, ps: nat)
    requires ps > 0 && addr % ps == 0 && i - i % ps < addr
    ensures i < addr
  {
    var k, n := i / ps, addr / ps;
    assert i == ps * k + i % ps && addr == ps * n;
    Division.NextMultipleFits(ps, k, n);
  }

  lemma ReadFailed(g: Geometry, s: State, m: Mem, addr: nat, value: octet)
    requires Place(m, addr) < |Memory(s.dev, m)|
    ensures ReadNext(g, s, m, addr, Outcome(-1, value, false, false), s)
  {
  }

  lemma ReadFuse(g: Geometry, s: State, n: nat, addr: nat)
    requires n < |s.dev.fuses|
    ensures ReadNext(g, s, Fuse(n), addr, Outcome(0, s.dev.fuses[n], false, false), s)
  {
  }

  lemma ReadHit(g: Geometry, s: State, m: Mem, addr: nat)
    requires !m.Fuse? && addr < |Memory(s.dev, m)|
    requires CacheOf(s, m).addr == BitAnd(addr, NotMask(PageSize(g, m) - 1))
    requires BitAnd(addr, PageSize(g, m) - 1) < |CacheOf(s, m).bytes|
    ensures ReadNext(g, s, m, addr, Outcome(0, CacheOf(s, m).bytes[BitAnd(addr, PageSize(g, m) - 1)], false, false), s)
  {
    hide BitAnd, NotMask, PageSize;
  }

  lemma ReadMiss(g: Geometry, s: State, m: Mem, addr: nat, paddr: nat, off: nat)
    requires !m.Fuse? && addr < |Memory(s.dev, m)|
    requires CacheOf(s, m).addr != paddr == BitAnd(addr, NotMask(PageSize(g, m) - 1))
    requires off == BitAnd(addr, PageSize(g, m) - 1) < PageSize(g, m) && paddr + PageSize(g, m) <= |Memory(s.dev, m)|
    ensures var page := Memory(s.dev, m)[paddr..paddr + PageSize(g, m)];
      ReadNext(g, s, m, addr, Outcome(0, page[off], false, false), WithCache(s, m, Cache(paddr, page)))
  {
    hide BitAnd, NotMask, PageSize;
  }

  lemma NotWritten(dev: Contents, m: Mem, at: nat, data: octet)
    requires at < |Memory(dev, m)|
    ensures ByteWritten(dev, m, at, data, -1, dev)
  {
  }

  lemma SmallAddress(g: Geometry, dev: Contents, m: Mem, addr: nat)
    requires ValidGeometry(g, dev) && addr < |Memory(dev, m)|
    ensures ToB3(addr) == addr && ToB3(addr / 2) == addr / 2
    ensures m.Flash? ==> 2 * (addr / 2) + 1 < |dev.flash|
  {
    if m.Flash? {
      var ps := PageSize(g, Flash);
      assert ps == 2 * Pow2(g.flashBits - 1);
      EvenSize(|dev.flash|, Pow2(g.flashBits - 1));
    }
  }

  lemma EvenSize(n: nat, p: nat)
    requires p > 0 && n % (2 * p) == 0
    ensures n % 2 == 0
  {
    HalfRemainder(n, p);
  }
}
