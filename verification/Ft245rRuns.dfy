/** Runs of the ring buffer that reach its corner cases: a full ring, the overflow message, and
    the reset of the tail with bytes still unread. */
module Ft245rRuns {
  import opened Ft245rRing
  import Division

  // ----- whole turns of the two threads

  /** Both threads are between two bytes. */
  predicate Quiet(s: State) {
    s.reader.RIdle? && s.consumer.CIdle?
  }

  /** add_to_buf(c) undisturbed. */
  function ReaderTurn(c: byte): seq<Step> {
    [ReaderTake(c), ReaderCheck, ReaderStore, ReaderMove, ReaderPost]
  }

  function AfterReaderTurn(s: State, c: byte): State
    requires InRange(s) && s.space > 0
  {
    s.(buffer := s.buffer[s.head := c], head := NextSlot(s.head), space := s.space - 1, data := s.data + 1,
       arrived := s.arrived + [c])
  }

  lemma NoSteps(s: State)
    ensures Runs(s, [], s)
  {
  }

  lemma StepThen(s: State, step: Step, rest: seq<Step>, t: State)
    requires InRange(s) && Enabled(s, step) && Runs(Next(s, step), rest, t)
    ensures Runs(s, [step] + rest, t)
  {
    assert ([step] + rest)[1..] == rest;
  }

  lemma ReaderTurnRuns(s: State, c: byte)
    requires InRange(s) && s.reader.RIdle? && s.space > 0
    ensures Runs(s, ReaderTurn(c), AfterReaderTurn(s, c))
  {
    hide Runs;
    var s1 := Next(s, ReaderTake(c));
    var s2 := Next(s1, ReaderCheck);
    var s3 := Next(s2, ReaderStore);
    var s4 := Next(s3, ReaderMove);
    var t := Next(s4, ReaderPost);
    assert t == AfterReaderTurn(s, c);
    NoSteps(t);
    StepThen(s4, ReaderPost, [], t);
    StepThen(s3, ReaderMove, [ReaderPost] + [], t);
    StepThen(s2, ReaderStore, [ReaderMove] + ([ReaderPost] + []), t);
    StepThen(s1, ReaderCheck, [ReaderStore] + ([ReaderMove] + ([ReaderPost] + [])), t);
    StepThen(s, ReaderTake(c), [ReaderCheck] + ([ReaderStore] + ([ReaderMove] + ([ReaderPost] + []))), t);
    assert [ReaderTake(c)] + ([ReaderCheck] + ([ReaderStore] + ([ReaderMove] + ([ReaderPost] + [])))) == ReaderTurn(c);
  }

  lemma {:induction false} RunsAppend(s: State, a: seq<Step>, t: State, b: seq<Step>, u: State)
    requires Runs(s, a, t) && Runs(t, b, u)
    ensures Runs(s, a + b, u)
    decreases |a|
  {
    hide Enabled, Next, InRange;
    if a == [] {
      assert a + b == b;
    } else {
      RunsAppend(Next(s, a[0]), a[1..], t, b, u);
      assert (a + b)[1..] == a[1..] + b;
    }
  }

  /** The reader alone, taking in bs. */
  function Turns(bs: seq<byte>): seq<Step> {
    if bs == [] then [] else Turns(bs[..|bs| - 1]) + ReaderTurn(bs[|bs| - 1])
  }

  /** After n bytes and no fetch: n slots are filled, the head is n slots on, and the slots
      hold the bytes. */
  predicate Loaded(s: State, bs: seq<byte>, t: State)
    requires |s.buffer| == BUFSIZE
  {
    && Quiet(t) && Inv(t) && t.arrived == bs && t.consumed == []
    && |bs| <= BUFSIZE && t.data == |bs| && t.space == BUFSIZE - |bs|
    && t.head == |bs| % BUFSIZE && t.tail == 0
    && t.buffer == bs + s.buffer[|bs|..]
  }

  /** Any number of bytes up to BUFSIZE can be in the ring. */
  lemma {:induction false} RingFills(s: State, bs: seq<byte>) returns (t: State)
    requires Initial(s) && |bs| <= BUFSIZE
    ensures Runs(s, Turns(bs), t) && Loaded(s, bs, t)
    decreases |bs|
  {
    hide Runs, Inv;
    if bs == [] {
      t := s;
      InitialInv(s);
    } else {
      var front, c := bs[..|bs| - 1], bs[|bs| - 1];
      var u := RingFills(s, front);
      InvInRange(u);
      t := AfterReaderTurn(u, c);
      ReaderTurnRuns(u, c);
      RunsAppend(s, Turns(front), u, ReaderTurn(c), t);
      RunInv(u, ReaderTurn(c), t);
      NextSlotOf(|front|);
      SmallRemainder(|front|);
      assert front + [c] == bs;
      assert t.buffer == bs + s.buffer[|bs|..];
    }
  }

  lemma InitialInv(s: State)
    requires Initial(s)
    ensures Inv(s) && Runs(s, [], s)
  {
  }

  lemma InvInRange(s: State)
    requires Inv(s)
    ensures InRange(s) && s.data <= BUFSIZE
  {
  }

  lemma RunInv(s: State, steps: seq<Step>, t: State)
    requires Inv(s) && Runs(s, steps, t)
    ensures Inv(t)
  {
    RunKeepsInv(s, steps, t);
  }

  lemma SmallRemainder(n: nat)
    requires n < BUFSIZE
    ensures n % BUFSIZE == n
  {
  }

  /** A completely full ring is reached, and there the drain loop stops with every byte unread. */
  lemma FullRingIsReached(s: State, bs: seq<byte>) returns (t: State)
    requires Initial(s) && |bs| == BUFSIZE
    ensures Runs(s, Turns(bs), t) && Quiet(t) && t.data == BUFSIZE && t.head == t.tail && t.consumed == []
  {
    t := RingFills(s, bs);
  }

  /** The reader with the last free slot in its hands prints the message; every byte is still there. */
  lemma MessageIsReached(s: State, bs: seq<byte>, c: byte) returns (t: State)
    requires Initial(s) && |bs| == BUFSIZE - 1
    ensures Runs(s, Turns(bs) + [ReaderTake(c)], t)
    ensures t.reader.RGranted? && InRange(t) && OverflowMessage(t) && t.buffer[..|bs|] == bs
  {
    hide Runs, Inv;
    var u := RingFills(s, bs);
    InvInRange(u);
    t := Next(u, ReaderTake(c));
    NoSteps(t);
    StepThen(u, ReaderTake(c), [], t);
    assert [ReaderTake(c)] + [] == [ReaderTake(c)];
    RunsAppend(s, Turns(bs), u, [ReaderTake(c)], t);
  }

  // ----- the last BUFSIZE bytes stay where they were stored

  predicate Remembers(s: State)
    requires |s.buffer| == BUFSIZE
  {
    forall k: nat | Stored(s) - BUFSIZE <= k < Stored(s) && k < |s.arrived| :: Holds(s, k)
  }

  lemma StepRemembers(s: State, step: Step)
    requires Inv(s) && Remembers(s) && Enabled(s, step)
    ensures Remembers(Next(s, step))
  {
    var t := Next(s, step);
    forall k: nat | Stored(t) - BUFSIZE <= k < Stored(t) && k < |t.arrived|
      ensures Holds(t, k)
    {
      if step.ReaderStore? {
        if k < |s.arrived| - 1 {
          assert Holds(s, k);
          SlotsDistinct(k, |s.arrived| - 1);
        }
      } else {
        assert Holds(s, k);
      }
    }
  }

  lemma {:induction false} RunRemembers(s: State, steps: seq<Step>, t: State)
    requires Inv(s) && Remembers(s) && Runs(s, steps, t)
    ensures Inv(t) && Remembers(t)
    decreases |steps|
  {
    hide Remembers, Inv, Enabled, Next, InRange;
    if steps != [] {
      RunFirst(s, steps, t);
      StepKeepsInv(s, steps[0]);
      StepRemembers(s, steps[0]);
      RunRemembers(Next(s, steps[0]), steps[1..], t);
    }
  }

  lemma RunFirst(s: State, steps: seq<Step>, t: State)
    requires steps != [] && Runs(s, steps, t)
    ensures InRange(s) && Enabled(s, steps[0]) && Runs(Next(s, steps[0]), steps[1..], t)
  {
  }

  // ----- the reset of the tail

  /** A turn of the loop of ft245r_recv undisturbed. */
  function ConsumerTurn(): seq<Step> {
    [ConsumerTake, ConsumerFetch, ConsumerMove, ConsumerPost]
  }

  function AfterConsumerTurn(s: State): State
    requires InRange(s) && s.data > 0
  {
    s.(tail := NextSlot(s.tail), space := s.space + 1, data := s.data - 1,
       consumed := s.consumed + [s.buffer[s.tail]])
  }

  lemma ConsumerTurnRuns(s: State)
    requires InRange(s) && s.consumer.CIdle? && s.data > 0
    ensures Runs(s, ConsumerTurn(), AfterConsumerTurn(s))
  {
    hide Runs;
    var s1 := Next(s, ConsumerTake);
    var s2 := Next(s1, ConsumerFetch);
    var s3 := Next(s2, ConsumerMove);
    var t := Next(s3, ConsumerPost);
    assert t == AfterConsumerTurn(s);
    NoSteps(t);
    StepThen(s3, ConsumerPost, [], t);
    StepThen(s2, ConsumerMove, [ConsumerPost] + [], t);
    StepThen(s1, ConsumerFetch, [ConsumerMove] + ([ConsumerPost] + []), t);
    StepThen(s, ConsumerTake, [ConsumerFetch] + ([ConsumerMove] + ([ConsumerPost] + [])), t);
    assert [ConsumerTake] + ([ConsumerFetch] + ([ConsumerMove] + ([ConsumerPost] + []))) == ConsumerTurn();
  }

  function Fetches(n: nat): seq<Step> {
    if n == 0 then [] else Fetches(n - 1) + ConsumerTurn()
  }

  /** What the slots from the tail on hold. */
  function SlotsFrom(s: State, n: nat): (r: seq<byte>)
    requires InRange(s)
    ensures |r| == n
  {
    seq(n, k => s.buffer[(s.tail + k) % BUFSIZE])
  }

  /** Fetching n bytes hands out what the slots from the tail on hold, whether or not the tail is right. */
  lemma {:induction false} FetchesRun(s: State, n: nat) returns (t: State)
    requires InRange(s) && s.consumer.CIdle? && n <= s.data
    ensures Runs(s, Fetches(n), t) && InRange(t) && t.consumer.CIdle?
    ensures t.consumed == s.consumed + SlotsFrom(s, n)
    ensures t.data == s.data - n && t.buffer == s.buffer && t.tail == (s.tail + n) % BUFSIZE
  {
    hide Runs;
    if n == 0 {
      t := s;
      NoSteps(s);
      SmallRemainder(s.tail);
    } else {
      var u := FetchesRun(s, n - 1);
      t := AfterConsumerTurn(u);
      ConsumerTurnRuns(u);
      RunsAppend(s, Fetches(n - 1), u, ConsumerTurn(), t);
      NextSlotOf(s.tail + n - 1);
      assert SlotsFrom(s, n) == SlotsFrom(s, n - 1) + [s.buffer[(s.tail + n - 1) % BUFSIZE]];
    }
  }

  /** What the consumer gets when the tail was set to the head with bytes unread: the bytes that
      went by BUFSIZE positions earlier, or slots that were never written. */
  function Replayed(s: State, n: nat): (r: seq<byte>)
    requires InRange(s) && n <= BUFSIZE
    ensures |r| == n
  {
    var a := |s.arrived|;
    seq(n, k requires 0 <= k < n => if a + k < BUFSIZE then s.buffer[a + k] else s.arrived[a + k - BUFSIZE])
  }

  /** The slot k places from the head holds the byte of BUFSIZE positions ago. */
  lemma SlotAhead(s: State, k: nat)
    requires Inv(s) && Remembers(s) && Quiet(s) && k < BUFSIZE
    ensures var a := |s.arrived|;
      s.buffer[(s.head + k) % BUFSIZE] == if a + k < BUFSIZE then s.buffer[a + k] else s.arrived[a + k - BUFSIZE]
  {
    var a := |s.arrived|;
    HeadPlus(a, k);
    if a + k < BUFSIZE {
      SmallRemainder(a + k);
    } else {
      assert Holds(s, a + k - BUFSIZE);
      OneRoundBack(a + k);
    }
  }

  lemma HeadPlus(a: nat, k: nat)
    ensures (a % BUFSIZE + k) % BUFSIZE == (a + k) % BUFSIZE
  {
    Division.AddMultiple(BUFSIZE, a / BUFSIZE, a % BUFSIZE + k);
  }

  lemma OneRoundBack(n: nat)
    requires n >= BUFSIZE
    ensures n % BUFSIZE == (n - BUFSIZE) % BUFSIZE
  {
    Division.AddMultiple(BUFSIZE, 1, n - BUFSIZE);
  }

  /** After `tail = head` in a quiet ring with d unread bytes, the next n <= d fetches hand out
      the replayed bytes; they continue the stream exactly if these happen to equal the unread ones. */
  lemma TailResetReplays(s: State, n: nat) returns (t: State)
    requires Inv(s) && Remembers(s) && Quiet(s) && n <= s.data
    ensures Runs(s.(tail := s.head), Fetches(n), t)
    ensures t.consumed == s.consumed + Replayed(s, n)
    ensures t.consumed <= s.arrived <==> Replayed(s, n) == s.arrived[|s.consumed|..|s.consumed| + n]
  {
    hide Runs, Remembers, Inv, Replayed, SlotsFrom;
    InvInRange(s);
    t := FetchesRun(s.(tail := s.head), n);
    SlotsAhead(s, n);
    Continues(s, t, n);
  }

  lemma SlotsAhead(s: State, n: nat)
    requires Inv(s) && Remembers(s) && Quiet(s) && n <= BUFSIZE
    ensures SlotsFrom(s.(tail := s.head), n) == Replayed(s, n)
  {
    hide Inv, Remembers;
    InvInRange(s);
    forall k | 0 <= k < n
      ensures SlotsFrom(s.(tail := s.head), n)[k] == Replayed(s, n)[k]
    {
      SlotAhead(s, k);
    }
  }

  lemma Continues(s: State, t: State, n: nat)
    requires Inv(s) && Quiet(s) && n <= s.data && t.consumed == s.consumed + Replayed(s, n)
    ensures |s.consumed| + n <= |s.arrived|
    ensures t.consumed <= s.arrived <==> Replayed(s, n) == s.arrived[|s.consumed|..|s.consumed| + n]
  {
    hide Replayed;
    var c := |s.consumed|;
    assert s.arrived[..c] == s.consumed;
    assert s.arrived[..c + n] == s.consumed + s.arrived[c..c + n];
    assert t.consumed[c..] == Replayed(s, n);
  }

  /** A run in which it matters: a drained ring, a byte that arrives before the reset, and a first
      fetch that hands out the untouched slot behind it. */
  lemma ResetLosesAByte(s: State, c: byte) returns (u: State, t: State)
    requires Initial(s) && s.buffer[1] != c
    ensures s.head == s.tail && Runs(s, Turns([c]), u) && Quiet(u) && u.arrived == [c]
    ensures Runs(u.(tail := u.head), Fetches(1), t) && t.consumed == [s.buffer[1]] && !(t.consumed <= u.arrived)
  {
    hide Runs, Inv;
    u := RingFills(s, [c]);
    InvInRange(u);
    RemembersInitial(s);
    RunRemembers(s, Turns([c]), u);
    t := TailResetReplays(u, 1);
    assert Replayed(u, 1) == [s.buffer[1]];
  }

  lemma RemembersInitial(s: State)
    requires Initial(s)
    ensures Inv(s) && Remembers(s)
  {
  }
}
