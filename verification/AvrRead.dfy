/** Reading a memory into its buffer and comparing it with an image: avr_read
    without the TPI branch, avr_verify, and the pair as a verify operation. */
module AvrRead {
  import opened AvrMemory
  import opened Options
  import opened Division

  /** A programmer with a part attached.  The byte at i can be read where gets(i) holds, and the
      page at a can be loaded where pageOk(a) does; what fails may leave anything behind. */
  class Programmer {
    const device: seq<byte>
    const hasPagedLoad: bool
    const pageOk: nat -> bool
    const gets: nat -> bool

    constructor (device: seq<byte>, hasPagedLoad: bool, pageOk: nat -> bool, gets: nat -> bool)
      ensures this.device == device && this.hasPagedLoad == hasPagedLoad && this.pageOk == pageOk && this.gets == gets
    {
      this.device, this.hasPagedLoad, this.pageOk, this.gets := device, hasPagedLoad, pageOk, gets;
    }

    /** paged_load. */
    method PagedLoad(mem: Memory, addr: nat, n: nat) returns (rc: int)
      requires mem.Valid() && addr + n <= mem.size == |device|
      modifies mem.buf
      ensures rc >= 0 <==> pageOk(addr)
      ensures rc >= 0 ==> mem.buf[addr..addr + n] == device[addr..addr + n]
      ensures mem.buf[..addr] == old(mem.buf[..addr]) && mem.buf[addr + n..] == old(mem.buf[addr + n..])
    {
      var garbage: seq<byte> := *;
      rc := if pageOk(addr) then n else -1;
      var i := 0;
      while i < n
        invariant 0 <= i <= n
        invariant rc >= 0 ==> mem.buf[addr..addr + i] == device[addr..addr + i]
        invariant mem.buf[..addr] == old(mem.buf[..addr]) && mem.buf[addr + n..] == old(mem.buf[addr + n..])
      {
        mem.buf[addr + i] := if rc < 0 && i < |garbage| then garbage[i] else device[addr + i];
        i := i + 1;
      }
    }

    /** read_byte into the buffer. */
    method ReadByte(mem: Memory, i: nat) returns (rc: int)
      requires mem.Valid() && i < mem.size == |device|
      modifies mem.buf
      ensures rc == 0 <==> gets(i)
      ensures rc == 0 ==> mem.buf[i] == device[i]
      ensures forall j | 0 <= j < mem.size && j != i :: mem.buf[j] == old(mem.buf[j])
    {
      var garbage: byte := *;
      rc := if gets(i) then 0 else -1;
      mem.buf[i] := if rc == 0 then device[i] else garbage;
    }
  }

  predicate AnyWanted(vtags: Option<seq<bool>>, lo: nat, hi: nat) {
    exists i | lo <= i < hi :: Wanted(vtags, i)
  }

  /** A page starts at a and holds a wanted byte. */
  ghost predicate NeededPage(vtags: Option<seq<bool>>, a: nat, pageSize: nat)
    requires pageSize > 0
  {
    a % pageSize == 0 && AnyWanted(vtags, a, a + pageSize)
  }

  /** A page that holds a wanted byte cannot be loaded. */
  ghost predicate PageFails(pgm: Programmer, vtags: Option<seq<bool>>, size: nat, pageSize: nat)
    requires pageSize > 0
  {
    exists a: nat | a < size :: NeededPage(vtags, a, pageSize) && !pgm.pageOk(a)
  }

  /** The byte loop is entered: there is no paged load for this memory, or it fails for a needed page. */
  ghost predicate ByBytes(pgm: Programmer, vtags: Option<seq<bool>>, size: nat, pageSize: nat) {
    !pgm.hasPagedLoad || pageSize == 0 || PageFails(pgm, vtags, size, pageSize)
  }

  /** A wanted byte cannot be read. */
  ghost predicate ByteFails(pgm: Programmer, vtags: Option<seq<bool>>, size: nat) {
    exists i: nat | i < size :: Wanted(vtags, i) && !pgm.gets(i)
  }

  /** The page scan of avr_read. */
  method NeedRead(vtags: Option<seq<bool>>, pageaddr: nat, n: nat) returns (need: bool)
    ensures need <==> AnyWanted(vtags, pageaddr, pageaddr + n)
  {
    need := false;
    var i := pageaddr;
    while i < pageaddr + n
      invariant pageaddr <= i <= pageaddr + n
      invariant !need && forall j | pageaddr <= j < i :: !Wanted(vtags, j)
    {
      if Wanted(vtags, i) {
        return true;
      }
      i := i + 1;
    }
  }

  /** avr_read: pages first if the programmer can, otherwise or after a failure
      one byte at a time.  It fails exactly when it has to read bytes one at a time and
      cannot read a wanted one; else every wanted byte is the device's. */
  method Read(pgm: Programmer, mem: Memory, vtags: Option<seq<bool>>) returns (rc: int)
    requires mem.Valid() && |pgm.device| == mem.size
    requires vtags.Some? ==> |vtags.value| == mem.size
    modifies mem.buf
    ensures rc >= 0 ==> forall i | 0 <= i < mem.size && (vtags.None? || vtags.value[i]) :: mem.buf[i] == pgm.device[i]
    ensures rc >= 0 ==> if mem.flashLike then IsHighAddress(mem.buf[..], rc) else rc == mem.size
    ensures rc >= 0 || rc == -2
    ensures rc == -2 <==> ByBytes(pgm, vtags, mem.size, mem.pageSize) && ByteFails(pgm, vtags, mem.size)
  {
    FillErased(mem);
    if pgm.hasPagedLoad && mem.pageSize != 0 {
      var failure := ReadPages(pgm, mem, vtags);
      if !failure {
        rc := ReadResult(mem);
        return;
      }
    }
    var i := 0;
    while i < mem.size
      invariant 0 <= i <= mem.size
      invariant forall j | 0 <= j < i && Wanted(vtags, j) :: pgm.gets(j) && mem.buf[j] == pgm.device[j]
    {
      if Wanted(vtags, i) {
        rc := pgm.ReadByte(mem, i);
        if rc != 0 {
          return -2;
        }
      }
      i := i + 1;
    }
    rc := ReadResult(mem);
  }

  method FillErased(mem: Memory)
    requires mem.Valid()
    modifies mem.buf
    ensures forall i | 0 <= i < mem.size :: mem.buf[i] == 0xff
  {
    forall i | 0 <= i < mem.size {
      mem.buf[i] := 0xff;
    }
  }

  method ReadResult(mem: Memory) returns (rc: int)
    requires mem.Valid()
    ensures rc >= 0 && if mem.flashLike then IsHighAddress(mem.buf[..], rc) else rc == mem.size
  {
    if mem.flashLike {
      rc := HighAddress(mem);
    } else {
      rc := mem.size;
    }
  }

  /** The paged branch: pages without a wanted byte are skipped and stay erased in the buffer. */
  method ReadPages(pgm: Programmer, mem: Memory, vtags: Option<seq<bool>>) returns (failure: bool)
    requires mem.Valid() && mem.pageSize > 0 && |pgm.device| == mem.size
    modifies mem.buf
    ensures failure <==> PageFails(pgm, vtags, mem.size, mem.pageSize)
    ensures !failure ==> forall i | 0 <= i < mem.size && Wanted(vtags, i) :: mem.buf[i] == pgm.device[i]
  {
    failure := false;
    var pageaddr := 0;
    assert mem.size == mem.pageSize * (mem.size / mem.pageSize);
    ghost var pages := 0;
    while !failure && pageaddr < mem.size
      invariant 0 <= pageaddr <= mem.size && pageaddr == mem.pageSize * pages
      invariant !failure ==> forall i | 0 <= i < pageaddr && Wanted(vtags, i) :: mem.buf[i] == pgm.device[i]
      invariant failure ==> PageFails(pgm, vtags, mem.size, mem.pageSize)
      invariant !failure ==> !PageFails(pgm, vtags, pageaddr, mem.pageSize)
      decreases !failure, mem.size - pageaddr
    {
      NextMultipleFits(mem.pageSize, pages, mem.size / mem.pageSize);
      NextPage(pgm, vtags, mem.pageSize, pages);
      var need := NeedRead(vtags, pageaddr, mem.pageSize);
      if need {
        ghost var before := mem.buf[..];
        var rc := pgm.PagedLoad(mem, pageaddr, mem.pageSize);
        if rc < 0 {
          failure := true;
        } else {
          forall i | 0 <= i < pageaddr + mem.pageSize && Wanted(vtags, i) ensures mem.buf[i] == pgm.device[i] {
            if i < pageaddr {
              assert mem.buf[..pageaddr][i] == before[..pageaddr][i];
            } else {
              assert mem.buf[pageaddr..pageaddr + mem.pageSize][i - pageaddr]
                  == pgm.device[pageaddr..pageaddr + mem.pageSize][i - pageaddr];
            }
          }
        }
      }
      pageaddr := pageaddr + mem.pageSize;
      pages := pages + 1;
    }
  }

  /** The pages below the next one are those below this one and this one. */
  lemma NextPage(pgm: Programmer, vtags: Option<seq<bool>>, pageSize: nat, k: nat)
    requires pageSize > 0
    ensures pageSize * k >= 0 && (pageSize * k) % pageSize == 0
    ensures PageFails(pgm, vtags, pageSize * k + pageSize, pageSize) <==>
      PageFails(pgm, vtags, pageSize * k, pageSize)
      || (AnyWanted(vtags, pageSize * k, pageSize * k + pageSize) && !pgm.pageOk(pageSize * k))
  {
    hide AnyWanted;
    ProductNonNegative(pageSize, k);
    var here := pageSize * k;
    Unique(here, pageSize, k, 0);
    forall a: nat | here <= a < here + pageSize && a % pageSize == 0
      ensures a == here
    {
      AddMultiple(pageSize, k, a - here);
      Unique(a - here, pageSize, 0, a - here);
    }
  }

  /** avr_verify: the buffer of a part against a tagged image. */
  method Verify(mem: Memory, image: seq<byte>, tags: seq<bool>, size: nat) returns (rc: int)
    requires mem.Valid() && |image| == |tags| == mem.size
    ensures rc == -1 <==> exists i | 0 <= i < size && i < mem.size :: tags[i] && mem.buf[i] != image[i]
    ensures rc != -1 ==> rc == if size < mem.size then size else mem.size
  {
    var vsize := size;
    if mem.size < size {
      vsize := mem.size;
    }
    var i := 0;
    while i < vsize
      invariant 0 <= i <= vsize
      invariant forall j | 0 <= j < i :: tags[j] ==> mem.buf[j] == image[j]
    {
      if tags[i] && mem.buf[i] != image[i] {
        return -1;
      }
      i := i + 1;
    }
    rc := vsize;
  }

  /** A device agrees with an image on the tagged bytes below size. */
  predicate Matches(device: seq<byte>, image: seq<byte>, tags: seq<bool>, size: nat)
    requires |device| == |image| == |tags|
  {
    forall i | 0 <= i < size && i < |device| :: tags[i] ==> device[i] == image[i]
  }

  /** The verify operation of update.c: whatever was skipped or fell back, it succeeds exactly
      when the bytes it needed could be read and the device agrees with the image. */
  method VerifyDevice(pgm: Programmer, mem: Memory, image: seq<byte>, tags: seq<bool>, size: nat) returns (verdict: int)
    requires mem.Valid() && |pgm.device| == |image| == |tags| == mem.size
    modifies mem.buf
    ensures verdict >= 0 <==>
      && !(ByBytes(pgm, Some(tags), mem.size, mem.pageSize) && ByteFails(pgm, Some(tags), mem.size))
      && Matches(pgm.device, image, tags, size)
    ensures (forall i: nat | i < mem.size :: pgm.gets(i)) ==> (verdict >= 0 <==> Matches(pgm.device, image, tags, size))
    ensures verdict == -1 || verdict == if size < mem.size then size else mem.size
  {
    var rc := Read(pgm, mem, Some(tags));
    if rc < 0 {
      return -1;
    }
    verdict := Verify(mem, image, tags, size);
    assert forall i | 0 <= i < mem.size :: tags[i] ==> Wanted(Some(tags), i);
  }
}
