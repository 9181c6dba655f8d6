/** The circular buffer between the FTDI reader thread and the programming
    thread.  Both threads run in atomic steps that may interleave in any order;
    the two counting semaphores are the only synchronisation. */
module Ft245rRing {

  type byte = bv8

  const BUFSIZE: nat := 0x2000

  /** Where the reader thread is inside add_to_buf. */
  datatype ReaderPc = RIdle | RGranted(c: byte) | RChecked(c: byte, nh: nat) | RStored(nh: nat) | RMoved

  /** Where the programming thread is inside the loop of ft245r_recv. */
  datatype ConsumerPc = CIdle | CGranted | CFetched | CMoved

  /** The shared variables, both program counters, and two histories: the bytes
      the reader took a slot for and the bytes the consumer fetched. */
  datatype State = State(
    buffer: seq<byte>, head: nat, tail: nat, space: nat, data: nat,
    reader: ReaderPc, consumer: ConsumerPc,
    arrived: seq<byte>, consumed: seq<byte>)

  datatype Step =
    | ReaderTake(c: byte) | ReaderCheck | ReaderStore | ReaderMove | ReaderPost
    | ConsumerTake | ConsumerFetch | ConsumerMove | ConsumerPost

  function NextSlot(i: nat): (r: nat)
    requires i < BUFSIZE
    ensures r < BUFSIZE && r == (i + 1) % BUFSIZE
  {
    if i == BUFSIZE - 1 then 0 else i + 1
  }

  predicate InRange(s: State) {
    |s.buffer| == BUFSIZE && s.head < BUFSIZE && s.tail < BUFSIZE
  }

  predicate Enabled(s: State, step: Step) {
    match step
    case ReaderTake(_) => s.reader.RIdle? && s.space > 0
    case ReaderCheck => s.reader.RGranted?
    case ReaderStore => s.reader.RChecked?
    case ReaderMove => s.reader.RStored?
    case ReaderPost => s.reader.RMoved?
    case ConsumerTake => s.consumer.CIdle? && s.data > 0
    case ConsumerFetch => s.consumer.CGranted?
    case ConsumerMove => s.consumer.CFetched?
    case ConsumerPost => s.consumer.CMoved?
  }

  function Next(s: State, step: Step): State
    requires InRange(s) && Enabled(s, step)
  {
    match step
    case ReaderTake(c) => s.(space := s.space - 1, reader := RGranted(c), arrived := s.arrived + [c])
    case ReaderCheck => s.(reader := RChecked(s.reader.c, NextSlot(s.head)))
    case ReaderStore => s.(buffer := s.buffer[s.head := s.reader.c], reader := RStored(s.reader.nh))
    case ReaderMove => s.(head := s.reader.nh, reader := RMoved)
    case ReaderPost => s.(data := s.data + 1, reader := RIdle)
    case ConsumerTake => s.(data := s.data - 1, consumer := CGranted)
    case ConsumerFetch => s.(consumed := s.consumed + [s.buffer[s.tail]], consumer := CFetched)
    case ConsumerMove => s.(tail := NextSlot(s.tail), consumer := CMoved)
    case ConsumerPost => s.(space := s.space + 1, consumer := CIdle)
  }

  /** What the reader tests before it prints "buffer overflow". */
  predicate OverflowMessage(s: State)
    requires InRange(s)
  {
    NextSlot(s.head) == s.tail
  }

  predicate Initial(s: State) {
    && InRange(s) && s.head == s.tail == 0
    && s.space == BUFSIZE && s.data == 0
    && s.reader.RIdle? && s.consumer.CIdle?
    && s.arrived == [] && s.consumed == []
  }

  // ----- counters behind the semaphores

  function Stored(s: State): int {
    |s.arrived| - if s.reader.RGranted? || s.reader.RChecked? then 1 else 0
  }

  function HeadCount(s: State): int {
    |s.arrived| - if s.reader.RIdle? || s.reader.RMoved? then 0 else 1
  }

  function Posted(s: State): int {
    |s.arrived| - if s.reader.RIdle? then 0 else 1
  }

  function Taken(s: State): int {
    |s.consumed| + if s.consumer.CGranted? then 1 else 0
  }

  function TailCount(s: State): int {
    |s.consumed| - if s.consumer.CFetched? then 1 else 0
  }

  function Freed(s: State): int {
    |s.consumed| - if s.consumer.CFetched? || s.consumer.CMoved? then 1 else 0
  }

  /** Slots taken from one semaphore and not yet given to the other. */
  function InTransit(s: State): nat {
    (if s.reader.RIdle? then 0 else 1) + (if s.consumer.CIdle? then 0 else 1)
  }

  /** The slot of stream position k holds the byte of stream position k. */
  predicate Holds(s: State, k: nat)
    requires |s.buffer| == BUFSIZE && k < |s.arrived|
  {
    s.buffer[k % BUFSIZE] == s.arrived[k]
  }

  predicate Inv(s: State) {
    && InRange(s)
    && 0 <= Freed(s) && Taken(s) <= Posted(s)
    && s.head == HeadCount(s) % BUFSIZE
    && s.tail == TailCount(s) % BUFSIZE
    && s.data == Posted(s) - Taken(s)
    && s.space == BUFSIZE - |s.arrived| + Freed(s)
    && (s.reader.RGranted? || s.reader.RChecked? ==> s.reader.c == s.arrived[|s.arrived| - 1])
    && (s.reader.RChecked? || s.reader.RStored? ==> s.reader.nh == NextSlot(s.head))
    && s.consumed <= s.arrived
    && (forall k: nat | |s.consumed| <= k < Stored(s) :: Holds(s, k))
  }

  lemma SlotsDistinct(a: nat, b: nat)
    requires a < b < a + BUFSIZE
    ensures a % BUFSIZE != b % BUFSIZE
  {
  }

  lemma NextSlotOf(n: nat)
    ensures NextSlot(n % BUFSIZE) == (n + 1) % BUFSIZE
  {
  }

  lemma ReaderStepKeepsInv(s: State, step: Step)
    requires Inv(s) && Enabled(s, step)
    requires step.ReaderTake? || step.ReaderCheck? || step.ReaderMove? || step.ReaderPost?
    ensures Inv(Next(s, step))
  {
    var t := Next(s, step);
    if step.ReaderMove? {
      NextSlotOf(|s.arrived| - 1);
    }
    forall k: nat | |t.consumed| <= k < Stored(t) ensures Holds(t, k) {
      assert Holds(s, k);
    }
  }

  lemma StoreKeepsInv(s: State)
    requires Inv(s) && Enabled(s, ReaderStore)
    ensures Inv(Next(s, ReaderStore))
  {
    var t := Next(s, ReaderStore);
    forall k: nat | |t.consumed| <= k < Stored(t) ensures Holds(t, k) {
      if k < |s.arrived| - 1 {
        assert Holds(s, k);
        SlotsDistinct(k, |s.arrived| - 1);
      }
    }
  }

  lemma ConsumerStepKeepsInv(s: State, step: Step)
    requires Inv(s) && Enabled(s, step)
    requires step.ConsumerTake? || step.ConsumerFetch? || step.ConsumerMove? || step.ConsumerPost?
    ensures Inv(Next(s, step))
  {
    var t := Next(s, step);
    if step.ConsumerMove? {
      NextSlotOf(|s.consumed| - 1);
    } else if step.ConsumerFetch? {
      assert Holds(s, |s.consumed|);
    }
    forall k: nat | |t.consumed| <= k < Stored(t) ensures Holds(t, k) {
      assert Holds(s, k);
    }
  }

  lemma StepKeepsInv(s: State, step: Step)
    requires Inv(s) && Enabled(s, step)
    ensures Inv(Next(s, step))
  {
    match step
    case ReaderStore => StoreKeepsInv(s);
    case ReaderTake(_) => ReaderStepKeepsInv(s, step);
    case ReaderCheck => ReaderStepKeepsInv(s, step);
    case ReaderMove => ReaderStepKeepsInv(s, step);
    case ReaderPost => ReaderStepKeepsInv(s, step);
    case ConsumerTake => ConsumerStepKeepsInv(s, step);
    case ConsumerFetch => ConsumerStepKeepsInv(s, step);
    case ConsumerMove => ConsumerStepKeepsInv(s, step);
    case ConsumerPost => ConsumerStepKeepsInv(s, step);
  }

  // ----- runs: any interleaving of enabled steps

  predicate Runs(s: State, steps: seq<Step>, t: State)
    decreases |steps|
  {
    if steps == [] then s == t
    else InRange(s) && Enabled(s, steps[0]) && Runs(Next(s, steps[0]), steps[1..], t)
  }

  /** The bytes the USB side offered during a run, in order. */
  function Offered(steps: seq<Step>): seq<byte> {
    if steps == [] then []
    else (if steps[0].ReaderTake? then [steps[0].c] else []) + Offered(steps[1..])
  }

  lemma {:induction false} RunKeepsInv(s: State, steps: seq<Step>, t: State)
    requires Inv(s) && Runs(s, steps, t)
    ensures Inv(t)
    decreases |steps|
  {
    if steps == [] {
    } else {
      StepKeepsInv(s, steps[0]);
      RunKeepsInv(Next(s, steps[0]), steps[1..], t);
    }
  }

  lemma OfferedNothing()
    ensures Offered([]) == []
  {
  }

  lemma OfferedFirst(steps: seq<Step>)
    requires steps != []
    ensures Offered(steps) == Offered([steps[0]]) + Offered(steps[1..])
  {
    assert [steps[0]][1..] == [];
  }

  lemma StepArrival(s: State, step: Step)
    requires InRange(s) && Enabled(s, step)
    ensures Next(s, step).arrived == s.arrived + Offered([step])
  {
    assert [step][1..] == [];
  }

  lemma {:induction false} RunArrivals(s: State, steps: seq<Step>, t: State)
    requires Runs(s, steps, t)
    ensures t.arrived == s.arrived + Offered(steps)
    decreases |steps|
  {
    hide Next, Enabled, InRange, Offered;
    if steps == [] {
      assert s.arrived + Offered([]) == s.arrived by { OfferedNothing(); }
    } else {
      var first, rest := [steps[0]], steps[1..];
      StepArrival(s, steps[0]);
      RunArrivals(Next(s, steps[0]), rest, t);
      OfferedFirst(steps);
      assert s.arrived + Offered(first) + Offered(rest) == s.arrived + (Offered(first) + Offered(rest));
    }
  }

  /** In every interleaving: free, filled and travelling slots add up to the ring
      size, and what was consumed is a prefix of what was offered. */
  lemma EveryRunIsAFifo(s: State, steps: seq<Step>, t: State)
    requires Initial(s) && Runs(s, steps, t)
    ensures t.space + t.data + InTransit(t) == BUFSIZE
    ensures t.consumed <= Offered(steps)
    ensures |Offered(steps)| - |t.consumed| <= BUFSIZE
    ensures Inv(t) && t.arrived == Offered(steps)
  {
    assert Inv(s);
    RunKeepsInv(s, steps, t);
    RunArrivals(s, steps, t);
    assert s.arrived + Offered(steps) == Offered(steps);
  }

  /** The slot a store is about to fill holds no byte that is still unread. */
  lemma StoreHitsNoUnreadSlot(s: State, k: nat)
    requires Inv(s) && Enabled(s, ReaderStore)
    requires |s.consumed| <= k < Stored(s)
    ensures k % BUFSIZE != s.head
  {
    SlotsDistinct(k, |s.arrived| - 1);
  }

  /** The slot a fetch is about to read was written, with the byte that is next in order. */
  lemma FetchReadsTheNextByte(s: State)
    requires Inv(s) && Enabled(s, ConsumerFetch)
    ensures |s.consumed| < Stored(s)
    ensures s.buffer[s.tail] == s.arrived[|s.consumed|]
  {
    assert Holds(s, |s.consumed|);
  }

  /** The two threads never wait for each other at the same time. */
  lemma NeverBothBlocked(s: State)
    requires Inv(s)
    ensures exists step: Step :: Enabled(s, step)
    ensures s.reader.RIdle? && s.consumer.CIdle? ==> s.space > 0 || s.data > 0
    ensures |s.consumed| < |s.arrived| && s.consumer.CIdle? && s.data == 0 ==> !s.reader.RIdle?
  {
    var step :=
      match s.reader
      case RGranted(_) => ReaderCheck
      case RChecked(_, _) => ReaderStore
      case RStored(_) => ReaderMove
      case RMoved => ReaderPost
      case RIdle =>
        match s.consumer
        case CGranted => ConsumerFetch
        case CFetched => ConsumerMove
        case CMoved => ConsumerPost
        case CIdle => if s.space > 0 then ReaderTake(0) else ConsumerTake;
    assert Enabled(s, step);
  }

  // ----- the message, the drain loop and the reset of the tail

  lemma ModuloEqual(a: nat, b: nat)
    requires a <= b <= a + BUFSIZE
    ensures a % BUFSIZE == b % BUFSIZE <==> b == a || b == a + BUFSIZE
  {
  }

  /** "buffer overflow. Cannot happen!" is printed exactly when the reader holds
      the last free slot; nothing overflows then. */
  lemma MessageMeansLastSlot(s: State)
    requires Inv(s) && s.reader.RGranted?
    ensures OverflowMessage(s) <==> s.space == 0 && !s.consumer.CMoved?
  {
    ModuloEqual(TailCount(s), HeadCount(s) + 1);
  }

  /** A drain that compares head with tail takes a completely full ring for an empty one. */
  lemma DrainStopsWhenEmptyOrFull(s: State)
    requires Inv(s) && s.reader.RIdle? && s.consumer.CIdle?
    ensures s.head == s.tail <==> s.data == 0 || s.data == BUFSIZE
  {
    ModuloEqual(TailCount(s), HeadCount(s));
  }

  /** Setting the tail to the head behind the semaphores' back keeps the ring
      consistent only if it changes nothing. */
  lemma TailResetBreaksTheRing(s: State)
    requires Inv(s)
    ensures Inv(s.(tail := s.head)) <==> s.tail == s.head
  {
    var t := s.(tail := s.head);
    assert TailCount(t) == TailCount(s);
    if s.tail == s.head {
      assert t == s;
    }
  }

  /** With fewer than BUFSIZE bytes outstanding neither the message nor the
      ambiguity of a full ring can occur. */
  lemma BoundedOutstandingNeverFills(s: State)
    requires Inv(s) && |s.arrived| - |s.consumed| < BUFSIZE - 1
    ensures s.data < BUFSIZE && s.space + InTransit(s) > 0
    ensures s.reader.RGranted? ==> !OverflowMessage(s)
    ensures s.reader.RIdle? && s.consumer.CIdle? ==> (s.head == s.tail <==> s.data == 0)
  {
    if s.reader.RGranted? {
      MessageMeansLastSlot(s);
    }
    if s.reader.RIdle? && s.consumer.CIdle? {
      DrainStopsWhenEmptyOrFull(s);
    }
  }

  // ----- the same steps on the shared variables themselves

  /** The steps of the current byte that the reader has still to take. */
  function Rank(r: ReaderPc): nat {
    match r
    case RIdle => 0
    case RGranted(_) => 4
    case RChecked(_, _) => 3
    case RStored(_) => 2
    case RMoved => 1
  }

  /** The shared variables of ft245r.c together with the two program counters. */
  class Ring {
    const buffer: array<byte>
    var head: nat
    var tail: nat
    var space: nat
    var data: nat
    var reader: ReaderPc
    var consumer: ConsumerPc
    var arrived: seq<byte>
    ghost var consumed: seq<byte>

    ghost function Abs(): State
      reads this, buffer
    {
      State(buffer[..], head, tail, space, data, reader, consumer, arrived, consumed)
    }

    constructor ()
      ensures Initial(Abs()) && fresh(buffer)
    {
      buffer := new byte[BUFSIZE];
      head, tail := 0, 0;
      data, space := 0, BUFSIZE;
      reader, consumer := RIdle, CIdle;
      arrived, consumed := [], [];
    }

    /** One atomic step of add_to_buf(c). */
    method ReaderStep(c: byte)
      requires Inv(Abs())
      requires Enabled(Abs(), NextReaderStep(c))
      modifies this, buffer
      ensures Abs() == Next(old(Abs()), old(NextReaderStep(c)))
    {
      match reader
      case RIdle =>
        space := space - 1;
        reader := RGranted(c);
        arrived := arrived + [c];
      case RGranted(d) =>
        var nh;
        if head == BUFSIZE - 1 {
          nh := 0;
        } else {
          nh := head + 1;
        }
        reader := RChecked(d, nh);
      case RChecked(d, nh) =>
        buffer[head] := d;
        reader := RStored(nh);
      case RStored(nh) =>
        head := nh;
        reader := RMoved;
      case RMoved =>
        data := data + 1;
        reader := RIdle;
    }

    ghost function NextReaderStep(c: byte): Step
      reads this
    {
      match reader
      case RIdle => ReaderTake(c)
      case RGranted(_) => ReaderCheck
      case RChecked(_, _) => ReaderStore
      case RStored(_) => ReaderMove
      case RMoved => ReaderPost
    }

    ghost function NextConsumerStep(): Step
      reads this
    {
      match consumer
      case CIdle => ConsumerTake
      case CGranted => ConsumerFetch
      case CFetched => ConsumerMove
      case CMoved => ConsumerPost
    }

    /** One atomic step of the loop body of ft245r_recv; b is the byte fetched, if any. */
    method ConsumerStep() returns (b: byte)
      requires Inv(Abs())
      requires Enabled(Abs(), NextConsumerStep())
      modifies this
      ensures Abs() == Next(old(Abs()), old(NextConsumerStep()))
      ensures old(consumer).CGranted? ==> consumed == old(consumed) + [b]
    {
      b := 0;
      match consumer
      case CIdle =>
        data := data - 1;
        consumer := CGranted;
      case CGranted =>
        b := buffer[tail];
        consumed := consumed + [b];
        consumer := CFetched;
      case CFetched =>
        if tail == BUFSIZE - 1 {
          tail := 0;
        } else {
          tail := tail + 1;
        }
        consumer := CMoved;
      case CMoved =>
        space := space + 1;
        consumer := CIdle;
    }

    /** The reader thread can take a step: it is inside add_to_buf, or a byte of the stream and a
        slot are there for it. */
    predicate ReaderCanStep(stream: seq<byte>)
      reads this
    {
      reader != RIdle || (space > 0 && |arrived| < |stream|)
    }

    /** Reader steps while the programming thread does nothing: any number of them, and if it waits
        for a byte, as many as it takes. */
    method Interleave(stream: seq<byte>, waiting: bool)
      requires Inv(Abs()) && arrived <= stream
      requires waiting ==> consumer.CIdle? && |consumed| < |stream|
      modifies this, buffer
      ensures Inv(Abs()) && old(arrived) <= arrived <= stream
      ensures consumer == old(consumer) && consumed == old(consumed)
      ensures waiting ==> data > 0
      ensures old(data) > 0 ==> data > 0
    {
      hide Inv;
      var go := *;
      while (waiting && data == 0) || (go && ReaderCanStep(stream))
        invariant Inv(Abs()) && old(arrived) <= arrived <= stream
        invariant consumer == old(consumer) && consumed == old(consumed)
        invariant old(data) > 0 ==> data > 0
        decreases 5 * (|stream| - |arrived|) + Rank(reader)
      {
        WaitedFor(Abs(), stream);
        var c := if |arrived| < |stream| then stream[|arrived|] else 0;
        ReaderMayStep(stream, c);
        StepKeepsInv(Abs(), NextReaderStep(c));
        ReaderStep(c);
        go := *;
      }
    }

    lemma ReaderMayStep(stream: seq<byte>, c: byte)
      requires ReaderCanStep(stream)
      ensures Enabled(Abs(), NextReaderStep(c))
    {
    }

    /** ft245r_recv: len turns of its loop, each waiting for a byte if none is there, with the reader
        thread at work in between.  It hands out the next len bytes of the stream. */
    method Recv(buf: array<byte>, len: nat, stream: seq<byte>)
      requires Inv(Abs()) && consumer.CIdle? && arrived <= stream
      requires |consumed| + len <= |stream| && len <= buf.Length && buf != buffer
      modifies this, buffer, buf
      ensures Inv(Abs()) && consumer.CIdle? && old(arrived) <= arrived <= stream
      ensures consumed == old(consumed) + buf[..len] && consumed <= arrived
      ensures buf[..len] == stream[|old(consumed)|..|old(consumed)| + len]
      ensures buf[len..] == old(buf[len..])
    {
      hide Inv;
      var i := 0;
      while i < len
        invariant 0 <= i <= len
        invariant Inv(Abs()) && consumer.CIdle? && old(arrived) <= arrived <= stream
        invariant consumed == old(consumed) + buf[..i]
        invariant buf[len..] == old(buf[len..])
      {
        i := FetchOne(buf, i, stream);
      }
      ConsumedIsPrefix(Abs());
      assert consumed <= stream;
      assert consumed[|old(consumed)|..] == buf[..len];
    }

    /** One turn of the loop: four steps, before each of which the reader may do something. */
    method FetchOne(buf: array<byte>, i: nat, stream: seq<byte>) returns (i': nat)
      requires Inv(Abs()) && consumer.CIdle? && arrived <= stream && |consumed| < |stream|
      requires i < buf.Length && buf != buffer
      modifies this, buffer, buf
      ensures i' == i + 1
      ensures Inv(Abs()) && consumer.CIdle? && old(arrived) <= arrived <= stream
      ensures consumed == old(consumed) + [buf[i]]
      ensures buf[..i] == old(buf[..i]) && buf[i + 1..] == old(buf[i + 1..])
    {
      hide Inv;
      Interleave(stream, true);
      StepKeepsInv(Abs(), ConsumerTake);
      var b := ConsumerStep();
      Interleave(stream, false);
      StepKeepsInv(Abs(), ConsumerFetch);
      b := ConsumerStep();
      buf[i] := b;
      Interleave(stream, false);
      StepKeepsInv(Abs(), ConsumerMove);
      b := ConsumerStep();
      Interleave(stream, false);
      StepKeepsInv(Abs(), ConsumerPost);
      b := ConsumerStep();
      i' := i + 1;
    }
  }

  /** A consumer that waits at an empty ring waits for a byte that the reader can deliver. */
  lemma WaitedFor(s: State, stream: seq<byte>)
    requires Inv(s)
    ensures s.consumer.CIdle? && |s.consumed| < |stream| && s.data == 0 ==>
      s.reader != RIdle || (s.space > 0 && |s.arrived| < |stream|)
  {
  }

  lemma ConsumedIsPrefix(s: State)
    requires Inv(s)
    ensures s.consumed <= s.arrived
  {
  }
}
