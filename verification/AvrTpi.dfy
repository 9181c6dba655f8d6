/** The TPI branches of avr_read and avr_write: the device keeps a pointer that
    steps on by itself, and is set again only when bytes were skipped. */
module AvrTpi {
  import opened AvrMemory
  import opened Options

  const SPACE: nat := 0x10000

  datatype NvmCommand = NoOperation | WordWrite

  /** A TPI target: its data space, the pointer register and the low byte of a word being written. */
  class Target {
    var nvm: seq<byte>
    var pointer: nat
    var command: NvmCommand
    var low: byte

    ghost predicate Valid()
      reads this
    {
      |nvm| == SPACE && pointer < SPACE
    }

    constructor (nvm: seq<byte>)
      requires |nvm| == SPACE
      ensures Valid() && this.nvm == nvm
    {
      this.nvm, pointer, command, low := nvm, 0, NoOperation, 0;
    }

    method SetCommand(c: NvmCommand)
      requires Valid()
      modifies this`command
      ensures command == c
    {
      command := c;
    }

    /** SSTPR: one half of the pointer register. */
    method StorePointer(high: bool, b: nat)
      requires Valid() && b < 256
      modifies this`pointer
      ensures Valid()
      ensures pointer == if high then b * 256 + old(pointer) % 256 else old(pointer) / 256 * 256 + b
    {
      pointer := if high then b * 256 + pointer % 256 else pointer / 256 * 256 + b;
    }

    /** SLD with post-increment. */
    method LoadNext() returns (b: byte)
      requires Valid()
      modifies this`pointer
      ensures Valid() && b == nvm[old(pointer)] && pointer == (old(pointer) + 1) % SPACE
    {
      b := nvm[pointer];
      pointer := (pointer + 1) % SPACE;
    }

    /** SST with post-increment: the high byte of a word starts the word write, which clears bits only. */
    method StoreNext(b: byte)
      requires Valid() && command == WordWrite
      modifies this`pointer, this`low, this`nvm
      ensures Valid() && pointer == (old(pointer) + 1) % SPACE
      ensures old(pointer) % 2 == 0 ==> low == b && nvm == old(nvm)
      ensures old(pointer) % 2 == 1 ==> nvm == old(nvm)
        [old(pointer) - 1 := And(old(nvm[pointer - 1]), old(low))][old(pointer) := And(old(nvm[pointer]), b)]
    {
      if pointer % 2 == 0 {
        low := b;
      } else {
        nvm := nvm[pointer - 1 := And(nvm[pointer - 1], low)][pointer := And(nvm[pointer], b)];
      }
      pointer := (pointer + 1) % SPACE;
    }
  }

  /** avr_tpi_setup_rw: the pointer is written as two bytes; it stops at the first of its three
      commands that is refused. */
  method SetupRw(dev: Target, offset: nat, addr: nat, c: NvmCommand, accepts: nat -> bool) returns (rc: int)
    requires dev.Valid()
    modifies dev`pointer, dev`command
    ensures dev.Valid() && rc == if accepts(0) && accepts(1) && accepts(2) then 0 else -1
    ensures dev.command == if accepts(0) then c else old(dev.command)
    ensures rc == 0 ==> dev.pointer == (offset + addr) % SPACE
    ensures !accepts(0) || !accepts(1) ==> dev.pointer == old(dev.pointer)
    ensures rc == -1 ==> dev.pointer / 256 == old(dev.pointer) / 256
  {
    rc := -1;
    if !accepts(0) {
      return;
    }
    dev.SetCommand(c);
    if !accepts(1) {
      return;
    }
    dev.StorePointer(false, (offset + addr) % 256);
    if !accepts(2) {
      return;
    }
    dev.StorePointer(true, (offset + addr) / 256 % 256);
    PointerHalves(offset + addr);
    rc := 0;
  }

  /** The set-up as avr_read and avr_write rely on it: they ignore its result. */
  method Setup(dev: Target, offset: nat, addr: nat, c: NvmCommand)
    requires dev.Valid()
    modifies dev`pointer, dev`command
    ensures dev.Valid() && dev.command == c && dev.pointer == (offset + addr) % SPACE
  {
    var rc := SetupRw(dev, offset, addr, c, _ => true);
  }

  lemma PointerHalves(x: nat)
    ensures x / 256 % 256 * 256 + x % 256 == x % SPACE
  {
  }

  /** The wanted bytes below done hold the device's, all others are erased. */
  ghost predicate ReadTo(nvm: seq<byte>, buf: seq<byte>, offset: nat, vtags: Option<seq<bool>>, done: nat)
    requires offset + |buf| <= |nvm|
  {
    forall i | 0 <= i < |buf| ::
      buf[i] == if i < done && (vtags.None? || (i < |vtags.value| && vtags.value[i])) then nvm[offset + i] else 0xff
  }

  lemma NothingRead(nvm: seq<byte>, buf: seq<byte>, offset: nat, vtags: Option<seq<bool>>)
    requires offset + |buf| <= |nvm| && forall i | 0 <= i < |buf| :: buf[i] == 0xff
    ensures ReadTo(nvm, buf, offset, vtags, 0)
  {
  }

  lemma ByteRead(nvm: seq<byte>, buf: seq<byte>, offset: nat, vtags: Option<seq<bool>>, i: nat)
    requires offset + |buf| <= |nvm| && i < |buf| && ReadTo(nvm, buf, offset, vtags, i)
    ensures ReadTo(nvm, if Wanted(vtags, i) then buf[i := nvm[offset + i]] else buf, offset, vtags, i + 1)
  {
  }

  /** avr_read on a TPI part: the wanted bytes are read from their own addresses, all
      others stay erased in the buffer.  A refused command ends the read. */
  method Read(dev: Target, mem: Memory, offset: nat, vtags: Option<seq<bool>>, accepts: nat -> bool) returns (rc: int)
    requires dev.Valid() && mem.Valid() && offset + mem.size <= SPACE
    modifies dev`pointer, dev`command, mem.buf
    ensures dev.Valid()
    ensures rc == -1 <==> exists i | 0 <= i < mem.size :: Wanted(vtags, i) && !accepts(i)
    ensures rc != -1 ==> rc >= 0 && IsHighAddress(mem.buf[..], rc)
    ensures rc != -1 ==> ReadTo(dev.nvm, mem.buf[..], offset, vtags, mem.size)
  {
    hide ReadTo, IsHighAddress, Wanted;
    forall i | 0 <= i < mem.size {
      mem.buf[i] := 0xff;
    }
    NothingRead(dev.nvm, mem.buf[..], offset, vtags);
    Setup(dev, offset, 0, NoOperation);
    var lastaddr, i := 0, 0;
    while i < mem.size
      invariant 0 <= lastaddr <= i <= mem.size && dev.Valid()
      invariant dev.pointer == (offset + lastaddr) % SPACE
      invariant forall j | 0 <= j < i :: Wanted(vtags, j) ==> accepts(j)
      invariant ReadTo(dev.nvm, mem.buf[..], offset, vtags, i)
    {
      ByteRead(dev.nvm, mem.buf[..], offset, vtags, i);
      if Wanted(vtags, i) {
        var ok, b;
        ok, b, lastaddr := LoadByte(dev, offset, mem.size, lastaddr, i, accepts(i));
        if !ok {
          return -1;
        }
        ghost var before := mem.buf[..];
        mem.buf[i] := b;
        assert mem.buf[..] == before[i := b];
      }
      i := i + 1;
    }
    rc := HighAddress(mem);
  }

  /** Reading one byte: the pointer is set only if it is not there already. */
  method LoadByte(dev: Target, offset: nat, size: nat, lastaddr: nat, i: nat, accepted: bool)
    returns (ok: bool, b: byte, lastaddr': nat)
    requires dev.Valid() && offset + size <= SPACE && i < size
    requires dev.pointer == (offset + lastaddr) % SPACE
    modifies dev`pointer, dev`command
    ensures dev.Valid() && ok == accepted
    ensures ok ==> b == dev.nvm[offset + i] && lastaddr' == i + 1
    ensures dev.pointer == (offset + lastaddr') % SPACE
  {
    ok, b, lastaddr' := accepted, 0xff, lastaddr;
    if lastaddr != i {
      Setup(dev, offset, i, NoOperation);
      lastaddr' := i;
    }
    if !accepted {
      return;
    }
    b := dev.LoadNext();
    lastaddr' := lastaddr' + 1;
  }

  /** The word at the even address i holds a tagged byte. */
  predicate WordTagged(tags: seq<bool>, i: nat)
    requires i + 1 < |tags|
  {
    tags[i] || tags[i + 1]
  }

  /** Memory byte i after the words below done were written. */
  predicate WrittenTo(before: seq<byte>, now: seq<byte>, buf: seq<byte>, tags: seq<bool>, offset: nat, done: nat, i: nat)
    requires |before| == |now| && |tags| == |buf| && |buf| % 2 == 0 && offset + |buf| <= |before| && i < |before|
  {
    now[i] ==
      if offset <= i < offset + done && i - offset < |buf| && WordTagged(tags, (i - offset) / 2 * 2)
      then And(before[i], buf[i - offset]) else before[i]
  }

  ghost predicate AllWrittenTo(before: seq<byte>, now: seq<byte>, buf: seq<byte>, tags: seq<bool>, offset: nat, done: nat)
    requires |before| == |now| && |tags| == |buf| && |buf| % 2 == 0 && offset + |buf| <= |before|
  {
    forall i | 0 <= i < |before| :: WrittenTo(before, now, buf, tags, offset, done, i)
  }

  /** avr_write on a TPI part: exactly the words with a tagged byte below the rounded
      size are programmed, with both their bytes.  (The offset and the size of a TPI
      memory are even.) */
  method Write(dev: Target, mem: Memory, offset: nat, size: nat) returns (rc: int)
    requires dev.Valid() && mem.Valid() && offset + mem.size <= SPACE && offset % 2 == 0 && mem.size % 2 == 0
    modifies dev
    ensures dev.Valid()
    ensures var wsize := if size < mem.size then size else mem.size;
      rc == wsize + wsize % 2
    ensures AllWrittenTo(old(dev.nvm), dev.nvm, mem.buf[..], mem.tags[..], offset, rc)
  {
    var wsize := if size < mem.size then size else mem.size;
    hide AllWrittenTo, And;
    Setup(dev, offset, 0, WordWrite);
    NothingWritten(dev.nvm, mem.buf[..], mem.tags[..], offset);
    if wsize % 2 == 1 {
      wsize := wsize + 1;
    }
    ghost var buf, tags, before, half := mem.buf[..], mem.tags[..], dev.nvm, wsize / 2;
    var lastaddr, i := 0, 0;
    ghost var word := 0;
    while i < wsize
      invariant 0 <= lastaddr <= i && i == 2 * word && wsize == 2 * half && 0 <= word <= half
      invariant dev.Valid() && dev.command == WordWrite && dev.pointer == (offset + lastaddr) % SPACE
      invariant AllWrittenTo(before, dev.nvm, buf, tags, offset, i)
    {
      ghost var now := dev.nvm;
      if mem.tags[i] || mem.tags[i + 1] {
        lastaddr := WriteWord(dev, mem, offset, lastaddr, i);
      }
      WordDone(before, now, dev.nvm, buf, tags, offset, i, i + 2);
      i, word := i + 2, word + 1;
    }
    rc := i;
  }

  /** Writing one word: the pointer is set only if it is not there already. */
  method WriteWord(dev: Target, mem: Memory, offset: nat, lastaddr: nat, i: nat) returns (lastaddr': nat)
    requires dev.Valid() && mem.Valid() && offset + mem.size <= SPACE && offset % 2 == 0
    requires dev.command == WordWrite && dev.pointer == (offset + lastaddr) % SPACE
    requires i % 2 == 0 && i + 2 <= mem.size
    modifies dev
    ensures dev.Valid() && dev.command == WordWrite
    ensures lastaddr' == i + 2 && dev.pointer == (offset + lastaddr') % SPACE
    ensures dev.nvm == old(dev.nvm)[offset + i := And(old(dev.nvm[offset + i]), mem.buf[i])]
      [offset + i + 1 := And(old(dev.nvm[offset + i + 1]), mem.buf[i + 1])]
  {
    hide And;
    lastaddr' := lastaddr;
    if lastaddr != i {
      Setup(dev, offset, i, WordWrite);
      lastaddr' := i;
    }
    StoreWord(dev, offset + i, mem.buf[i], mem.buf[i + 1]);
    lastaddr' := lastaddr' + 2;
  }

  /** The two stores of a word, low byte first. */
  method StoreWord(dev: Target, address: nat, b0: byte, b1: byte)
    requires dev.Valid() && dev.command == WordWrite
    requires dev.pointer == address && address % 2 == 0 && address + 1 < SPACE
    modifies dev`pointer, dev`low, dev`nvm
    ensures dev.Valid() && dev.pointer == (address + 2) % SPACE
    ensures dev.nvm == old(dev.nvm)
      [address := And(old(dev.nvm[address]), b0)][address + 1 := And(old(dev.nvm[address + 1]), b1)]
  {
    hide And;
    dev.StoreNext(b0);
    dev.StoreNext(b1);
  }

  lemma NothingWritten(before: seq<byte>, buf: seq<byte>, tags: seq<bool>, offset: nat)
    requires |tags| == |buf| && |buf| % 2 == 0 && offset + |buf| <= |before|
    ensures AllWrittenTo(before, before, buf, tags, offset, 0)
  {
  }

  lemma WordDone(before: seq<byte>, now: seq<byte>, next: seq<byte>, buf: seq<byte>, tags: seq<bool>,
                 offset: nat, i: nat, done: nat)
    requires |before| == |now| == |next| && |tags| == |buf| && |buf| % 2 == 0 && offset + |buf| <= |before|
    requires i % 2 == 0 && done == i + 2 <= |buf|
    requires AllWrittenTo(before, now, buf, tags, offset, i)
    requires next == if !WordTagged(tags, i) then now else
      now[offset + i := And(now[offset + i], buf[i])][offset + i + 1 := And(now[offset + i + 1], buf[i + 1])]
    ensures AllWrittenTo(before, next, buf, tags, offset, done)
  {
    hide And;
    forall j | 0 <= j < |before| ensures WrittenTo(before, next, buf, tags, offset, done, j) {
      assert WrittenTo(before, now, buf, tags, offset, i, j);
      assert offset + i <= j < offset + i + 2 ==> (j - offset) / 2 * 2 == i;
    }
  }

  /** On erased flash a programmed word equals the image. */
  lemma ErasedTakesImage(before: seq<byte>, now: seq<byte>, buf: seq<byte>, tags: seq<bool>, offset: nat, done: nat, i: nat)
    requires |before| == |now| && |tags| == |buf| && |buf| % 2 == 0 && offset + |buf| <= |before|
    requires i < |buf| && i < done && tags[i] && before[offset + i] == 0xff
    requires WrittenTo(before, now, buf, tags, offset, done, offset + i)
    ensures now[offset + i] == buf[i]
  {
    assert i == i / 2 * 2 || i == i / 2 * 2 + 1;
  }
}
