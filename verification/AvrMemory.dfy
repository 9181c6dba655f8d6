/** One memory of a part: its size, its pages and the image buffered for it. */
module AvrMemory {
  import opened Options

  type byte = bv8

  /** Programming clears bits only. */
  function And(a: byte, b: byte): byte {
    a & b
  }

  /** Byte i has to be read: always, or only where the image has a tag. */
  predicate Wanted(vtags: Option<seq<bool>>, i: nat) {
    vtags.None? || (i < |vtags.value| && vtags.value[i])
  }

  /** AVRMEM.  tags[i] is true where TAG_ALLOCATED is set. */
  class Memory {
    const size: nat
    const pageSize: nat
    const paged: bool
    /** The description is flash, application, apptable or boot. */
    const flashLike: bool
    const buf: array<byte>
    const tags: array<bool>

    ghost predicate Valid() {
      && buf.Length == size && tags.Length == size
      && (pageSize > 0 ==> size % pageSize == 0)
      && (paged ==> pageSize > 0)
    }

    constructor (size: nat, pageSize: nat, paged: bool, flashLike: bool)
      requires (pageSize > 0 ==> size % pageSize == 0) && (paged ==> pageSize > 0)
      ensures Valid() && fresh(buf) && fresh(tags)
      ensures this.size == size && this.pageSize == pageSize && this.paged == paged && this.flashLike == flashLike
    {
      this.size, this.pageSize, this.paged, this.flashLike := size, pageSize, paged, flashLike;
      buf := new byte[size](_ => 0xff);
      tags := new bool[size](_ => false);
    }
  }

  /** n is the even number of bytes that covers every byte but the first that is not 0xff. */
  ghost predicate IsHighAddress(s: seq<byte>, n: nat) {
    && n % 2 == 0
    && (forall i | n <= i < |s| :: i > 0 ==> s[i] == 0xff)
    && (n > 0 ==> exists i | n - 2 <= i < n :: 0 < i < |s| && s[i] != 0xff)
  }

  lemma HighAddressAtMost(s: seq<byte>, m: nat, n: nat)
    requires IsHighAddress(s, n) && m % 2 == 0
    requires forall i | m <= i < |s| :: i > 0 ==> s[i] == 0xff
    ensures n <= m
  {
    if n > 0 {
      var i :| n - 2 <= i < n && 0 < i < |s| && s[i] != 0xff;
      assert i < m;
    }
  }

  lemma HighAddressIsUnique(s: seq<byte>, m: nat, n: nat)
    requires IsHighAddress(s, m) && IsHighAddress(s, n)
    ensures m == n
  {
    HighAddressAtMost(s, m, n);
    HighAddressAtMost(s, n, m);
  }

  /** avr_mem_hiaddr.  Byte 0 is never looked at: a buffer that differs from the
      erased state only there counts as empty. */
  method HighAddress(mem: Memory) returns (n: nat)
    requires mem.Valid()
    ensures IsHighAddress(mem.buf[..], n)
    ensures n == 0 <==> forall i | 0 < i < mem.size :: mem.buf[i] == 0xff
  {
    var i := mem.size - 1;
    while i > 0
      invariant i < mem.size && (i >= 0 || mem.size == 0)
      invariant forall j | 0 <= j < mem.size && i < j :: mem.buf[j] == 0xff
    {
      if mem.buf[i] != 0xff {
        n := i + 1;
        if n % 2 == 1 {
          n := n + 1;
        }
        assert n - 2 <= i < n && mem.buf[..][i] != 0xff;
        return;
      }
      i := i - 1;
    }
    n := 0;
  }
}
