/** The programming thread on top of the ring: it sends samples, each of which brings one back,
    and receives them again.  A receive may begin before its bytes have arrived and then waits. */
module Ft245rPipe {
  import opened Ft245rRing

  /** One call of ft245r_send or ft245r_recv, for n samples. */
  datatype Io = Send(n: nat) | Recv(n: nat)

  function Sent(ios: seq<Io>): nat {
    if ios == [] then 0 else Sent(ios[..|ios| - 1]) + if ios[|ios| - 1].Send? then ios[|ios| - 1].n else 0
  }

  function Received(ios: seq<Io>): nat {
    if ios == [] then 0 else Received(ios[..|ios| - 1]) + if ios[|ios| - 1].Recv? then ios[|ios| - 1].n else 0
  }

  /** No receive asks for more than was sent, and never more than m samples are under way. */
  predicate Bounded(ios: seq<Io>, m: nat) {
    forall k | 0 <= k <= |ios| :: Received(ios[..k]) <= Sent(ios[..k]) <= Received(ios[..k]) + m
  }

  /** The ring, how many calls the programming thread has begun, and how many bytes the current
      receive still wants. */
  datatype Sys = Sys(ring: State, pc: nat, want: nat)

  datatype SysStep = Act | Ring(step: Step)

  predicate SysInitial(s: Sys) {
    Initial(s.ring) && s.pc == 0 && s.want == 0
  }

  /** The next call begins when the last one is over; the reader gets the next sample of the stream
      if it was asked for by a send; the consumer goes round once for each byte wanted. */
  predicate SysEnabled(ios: seq<Io>, stream: seq<byte>, s: Sys, step: SysStep) {
    match step
    case Act => s.want == 0 && s.ring.consumer.CIdle? && s.pc < |ios|
    case Ring(r) =>
      && InRange(s.ring) && Enabled(s.ring, r) && s.pc <= |ios|
      && (r.ReaderTake? ==> |s.ring.arrived| < Sent(ios[..s.pc]) && |s.ring.arrived| < |stream| && r.c == stream[|s.ring.arrived|])
      && (r.ConsumerTake? ==> s.want > 0)
  }

  function SysNext(ios: seq<Io>, s: Sys, step: SysStep): Sys
    requires step.Act? ==> s.pc < |ios|
    requires step.Ring? ==> InRange(s.ring) && Enabled(s.ring, step.step)
  {
    match step
    case Act => Sys(s.ring, s.pc + 1, if ios[s.pc].Recv? then ios[s.pc].n else 0)
    case Ring(r) => Sys(Next(s.ring, r), s.pc, if r.ConsumerPost? && s.want > 0 then s.want - 1 else s.want)
  }

  predicate SysRuns(ios: seq<Io>, stream: seq<byte>, s: Sys, steps: seq<SysStep>, t: Sys)
    decreases |steps|
  {
    if steps == [] then s == t
    else SysEnabled(ios, stream, s, steps[0]) && SysRuns(ios, stream, SysNext(ios, s, steps[0]), steps[1..], t)
  }

  // ----- what every step keeps

  predicate SysInv(ios: seq<Io>, stream: seq<byte>, m: nat, s: Sys) {
    && Inv(s.ring) && s.pc <= |ios|
    && s.ring.arrived <= stream && |s.ring.arrived| <= Sent(ios[..s.pc])
    && Freed(s.ring) + s.want == Received(ios[..s.pc])
    && Sent(ios[..s.pc]) <= Freed(s.ring) + m
    && (!s.ring.consumer.CIdle? ==> s.want > 0)
  }

  lemma SentMore(ios: seq<Io>, k: nat)
    requires k < |ios|
    ensures Sent(ios[..k + 1]) == Sent(ios[..k]) + if ios[k].Send? then ios[k].n else 0
    ensures Received(ios[..k + 1]) == Received(ios[..k]) + if ios[k].Recv? then ios[k].n else 0
  {
    assert ios[..k + 1][..k] == ios[..k];
  }

  lemma RingStepFacts(s: State, r: Step)
    requires Inv(s) && Enabled(s, r)
    ensures Inv(Next(s, r))
    ensures Next(s, r).arrived == s.arrived + if r.ReaderTake? then [r.c] else []
    ensures Freed(Next(s, r)) == Freed(s) + if r.ConsumerPost? then 1 else 0
    ensures !Next(s, r).consumer.CIdle? ==> !s.consumer.CIdle? || r.ConsumerTake?
    ensures r.ConsumerPost? ==> Next(s, r).consumer.CIdle? && !s.consumer.CIdle?
  {
    StepKeepsInv(s, r);
  }

  lemma SysStepKeepsInv(ios: seq<Io>, stream: seq<byte>, m: nat, s: Sys, step: SysStep)
    requires Bounded(ios, m) && Sent(ios) <= |stream|
    requires SysInv(ios, stream, m, s) && SysEnabled(ios, stream, s, step)
    ensures SysInv(ios, stream, m, SysNext(ios, s, step))
  {
    hide Inv, Enabled, Next, Sent, Received;
    match step
    case Act =>
      SentMore(ios, s.pc);
      IdleFreed(s.ring);
    case Ring(r) =>
      RingStepFacts(s.ring, r);
  }

  lemma IdleFreed(s: State)
    requires s.consumer.CIdle?
    ensures Freed(s) == |s.consumed|
  {
  }

  lemma {:induction false} SysRunKeepsInv(ios: seq<Io>, stream: seq<byte>, m: nat, s: Sys, steps: seq<SysStep>, t: Sys)
    requires Bounded(ios, m) && Sent(ios) <= |stream|
    requires SysInv(ios, stream, m, s) && SysRuns(ios, stream, s, steps, t)
    ensures SysInv(ios, stream, m, t)
    decreases |steps|
  {
    hide SysInv, SysEnabled, SysNext, Bounded;
    if steps != [] {
      SysFirst(ios, stream, s, steps, t);
      SysStepKeepsInv(ios, stream, m, s, steps[0]);
      SysRunKeepsInv(ios, stream, m, SysNext(ios, s, steps[0]), steps[1..], t);
    }
  }

  lemma SysFirst(ios: seq<Io>, stream: seq<byte>, s: Sys, steps: seq<SysStep>, t: Sys)
    requires steps != [] && SysRuns(ios, stream, s, steps, t)
    ensures SysEnabled(ios, stream, s, steps[0]) && SysRuns(ios, stream, SysNext(ios, s, steps[0]), steps[1..], t)
  {
  }

  // ----- nothing waits for ever

  /** Every call is over. */
  predicate Finished(ios: seq<Io>, s: Sys) {
    s.pc == |ios| && s.want == 0 && s.ring.consumer.CIdle?
  }

  /** As long as a call is not over, some step can be taken; a receive that waits for a byte is
      waiting for one that the reader can still deliver. */
  lemma NeverStuck(ios: seq<Io>, stream: seq<byte>, m: nat, s: Sys) returns (step: SysStep)
    requires Bounded(ios, m) && Sent(ios) <= |stream| && SysInv(ios, stream, m, s) && !Finished(ios, s)
    ensures SysEnabled(ios, stream, s, step)
  {
    SentUpTo(ios, s.pc);
    match s.ring.consumer
    case CGranted => step := Ring(ConsumerFetch);
    case CFetched => step := Ring(ConsumerMove);
    case CMoved => step := Ring(ConsumerPost);
    case CIdle =>
      if s.want == 0 {
        step := Act;
      } else if s.ring.data > 0 {
        step := Ring(ConsumerTake);
      } else {
        match s.ring.reader
        case RGranted(_) => step := Ring(ReaderCheck);
        case RChecked(_, _) => step := Ring(ReaderStore);
        case RStored(_) => step := Ring(ReaderMove);
        case RMoved => step := Ring(ReaderPost);
        case RIdle =>
          assert Received(ios[..s.pc]) <= Sent(ios[..s.pc]);
          step := Ring(ReaderTake(stream[|s.ring.arrived|]));
      }
  }

  lemma {:induction false} SentUpTo(ios: seq<Io>, k: nat)
    requires k <= |ios|
    ensures Sent(ios[..k]) <= Sent(ios) && Received(ios[..k]) <= Received(ios)
    decreases |ios| - k
  {
    if k < |ios| {
      SentMore(ios, k);
      SentUpTo(ios, k + 1);
    } else {
      assert ios[..k] == ios;
    }
  }

  /** Steps of the current turn that are done; Freed still lacks this turn's byte. */
  function ConsumerRank(c: ConsumerPc): nat {
    match c
    case CIdle => 0
    case CGranted => 1
    case CFetched => 2
    case CMoved => 3
  }

  /** An upper bound of the steps still to come. */
  function Work(ios: seq<Io>, s: Sys): int {
    5 * (Sent(ios) - |s.ring.arrived|) + Rank(s.ring.reader)
    + 4 * (Received(ios) - Freed(s.ring)) - ConsumerRank(s.ring.consumer)
    + |ios| - s.pc
  }

  lemma WorkIsNatural(ios: seq<Io>, stream: seq<byte>, m: nat, s: Sys)
    requires SysInv(ios, stream, m, s)
    ensures Work(ios, s) >= 0
  {
    SentUpTo(ios, s.pc);
  }

  lemma WorkFalls(ios: seq<Io>, stream: seq<byte>, m: nat, s: Sys, step: SysStep)
    requires SysInv(ios, stream, m, s) && SysEnabled(ios, stream, s, step)
    ensures Work(ios, SysNext(ios, s, step)) == Work(ios, s) - 1
  {
    hide Sent, Received;
  }

  lemma {:induction false} RunsAreShort(ios: seq<Io>, stream: seq<byte>, m: nat, s: Sys, steps: seq<SysStep>, t: Sys)
    requires Bounded(ios, m) && Sent(ios) <= |stream|
    requires SysInv(ios, stream, m, s) && SysRuns(ios, stream, s, steps, t)
    ensures |steps| == Work(ios, s) - Work(ios, t)
    decreases |steps|
  {
    hide SysInv, SysEnabled, SysNext, Bounded, Work;
    if steps != [] {
      SysFirst(ios, stream, s, steps, t);
      SysStepKeepsInv(ios, stream, m, s, steps[0]);
      WorkFalls(ios, stream, m, s, steps[0]);
      RunsAreShort(ios, stream, m, SysNext(ios, s, steps[0]), steps[1..], t);
    }
  }

  // ----- the result

  /** At every moment of every run: what was consumed is a prefix of the stream of answers, exactly
      as far as the calls that are over received it; the ring is not full, and the message is not due. */
  predicate Healthy(ios: seq<Io>, stream: seq<byte>, t: Sys) {
    && t.pc <= |ios| && InRange(t.ring)
    && t.ring.consumed <= stream
    && (t.want == 0 && t.ring.consumer.CIdle? ==> |t.ring.consumed| == Received(ios[..t.pc]))
    && t.ring.data < BUFSIZE
    && (t.ring.reader.RGranted? ==> !OverflowMessage(t.ring))
    && (t.ring.reader.RIdle? && t.ring.consumer.CIdle? ==> (t.ring.head == t.ring.tail <==> t.ring.data == 0))
  }

  /** A program whose calls keep fewer than BUFSIZE - 1 samples under way: every run is healthy, has
      a bounded number of steps, and can go on until every call is over. */
  lemma EveryRunCompletes(ios: seq<Io>, stream: seq<byte>, m: nat, s: Sys, steps: seq<SysStep>, t: Sys)
    requires Bounded(ios, m) && m < BUFSIZE - 1 && Sent(ios) <= |stream|
    requires SysInitial(s) && SysRuns(ios, stream, s, steps, t)
    ensures Healthy(ios, stream, t)
    ensures |steps| <= 5 * Sent(ios) + 4 * Received(ios) + |ios|
    ensures Finished(ios, t) || exists step :: SysEnabled(ios, stream, t, step)
    ensures Finished(ios, t) ==> Received(ios) <= |stream| && t.ring.consumed == stream[..Received(ios)]
  {
    hide SysInv, SysEnabled, SysRuns, Bounded, Healthy, Finished, SysInitial, Work, Sent, Received;
    SysStarts(ios, stream, m, s);
    SysRunKeepsInv(ios, stream, m, s, steps, t);
    InvMeansHealthy(ios, stream, m, t);
    RunsAreShort(ios, stream, m, s, steps, t);
    WorkIsNatural(ios, stream, m, t);
    if Finished(ios, t) {
      AllReceived(ios, stream, m, t);
    } else {
      var step := NeverStuck(ios, stream, m, t);
    }
  }

  lemma SysStarts(ios: seq<Io>, stream: seq<byte>, m: nat, s: Sys)
    requires SysInitial(s)
    ensures SysInv(ios, stream, m, s)
    ensures Work(ios, s) == 5 * Sent(ios) + 4 * Received(ios) + |ios|
  {
    NothingYet(ios);
  }

  lemma AllReceived(ios: seq<Io>, stream: seq<byte>, m: nat, t: Sys)
    requires Bounded(ios, m) && Sent(ios) <= |stream| && SysInv(ios, stream, m, t) && Finished(ios, t)
    ensures Received(ios) <= |stream| && t.ring.consumed == stream[..Received(ios)]
  {
    hide Sent, Received;
    assert ios[..|ios|] == ios;
  }

  lemma NothingYet(ios: seq<Io>)
    ensures Sent(ios[..0]) == Received(ios[..0]) == 0
  {
  }

  lemma InvMeansHealthy(ios: seq<Io>, stream: seq<byte>, m: nat, t: Sys)
    requires SysInv(ios, stream, m, t) && m < BUFSIZE - 1
    ensures Healthy(ios, stream, t)
  {
    hide Sent, Received;
    BoundedOutstandingNeverFills(t.ring);
  }

  /** The receive that is call number k hands out exactly the next n samples of the stream. */
  lemma ReceiveTakesTheNext(ios: seq<Io>, stream: seq<byte>, k: nat, before: Sys, after: Sys)
    requires k < |ios| && ios[k].Recv? && Healthy(ios, stream, before) && Healthy(ios, stream, after)
    requires before.pc == k && before.want == 0 && before.ring.consumer.CIdle?
    requires after.pc == k + 1 && after.want == 0 && after.ring.consumer.CIdle?
    ensures var c := |before.ring.consumed|;
      c + ios[k].n <= |stream| && after.ring.consumed == before.ring.consumed + stream[c..c + ios[k].n]
  {
    SentMore(ios, k);
  }

  // ----- building the history of calls

  lemma {:induction false} BoundedMore(ios: seq<Io>, x: Io, m: nat, m': nat)
    requires Bounded(ios, m) && m <= m'
    requires x.Send? ==> Sent(ios) + x.n <= Received(ios) + m'
    requires x.Recv? ==> Received(ios) + x.n <= Sent(ios)
    ensures Bounded(ios + [x], m')
    ensures Sent(ios + [x]) == Sent(ios) + (if x.Send? then x.n else 0)
    ensures Received(ios + [x]) == Received(ios) + (if x.Recv? then x.n else 0)
  {
    hide Sent, Received;
    var more := ios + [x];
    SentMore(more, |ios|);
    assert more[..|ios|] == ios && more[..|ios| + 1] == more && ios[..|ios|] == ios;
    forall k | 0 <= k <= |more|
      ensures Received(more[..k]) <= Sent(more[..k]) <= Received(more[..k]) + m'
    {
      if k <= |ios| {
        assert more[..k] == ios[..k];
      }
    }
  }
}
