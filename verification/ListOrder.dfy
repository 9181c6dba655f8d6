/** Sequences ordered by a C-style compare function, as lists.c uses them:
    negative, zero or positive for less, equal or greater. */
module ListOrder {

  type Compare<!T> = (T, T) -> int

  ghost predicate TotalPreorder<T(!new)>(cmp: Compare<T>) {
    && (forall a, b :: cmp(a, b) > 0 <==> cmp(b, a) < 0)
    && (forall a, b, c :: cmp(a, b) <= 0 && cmp(b, c) <= 0 ==> cmp(a, c) <= 0)
  }

  predicate Sorted<T>(s: seq<T>, cmp: Compare<T>) {
    forall i, j | 0 <= i < j < |s| :: cmp(s[i], s[j]) <= 0
  }

  predicate StrictlySorted<T>(s: seq<T>, cmp: Compare<T>) {
    forall i, j | 0 <= i < j < |s| :: cmp(s[i], s[j]) < 0
  }

  /** The elements of s that compare equal to x, in the order they have in s. */
  function EqualTo<T>(s: seq<T>, x: T, cmp: Compare<T>): seq<T> {
    if s == [] then [] else (if cmp(x, s[0]) == 0 then [s[0]] else []) + EqualTo(s[1..], x, cmp)
  }

  /** t has the elements of s, and elements that compare equal are in the same order. */
  ghost predicate StableRearrangement<T(!new)>(s: seq<T>, t: seq<T>, cmp: Compare<T>) {
    multiset(s) == multiset(t) && forall x :: EqualTo(t, x, cmp) == EqualTo(s, x, cmp)
  }

  lemma {:induction false} EqualToAppend<T>(s: seq<T>, t: seq<T>, x: T, cmp: Compare<T>)
    ensures EqualTo(s + t, x, cmp) == EqualTo(s, x, cmp) + EqualTo(t, x, cmp)
  {
    if s == [] {
      assert s + t == t;
    } else {
      EqualToAppend(s[1..], t, x, cmp);
      assert (s + t)[1..] == s[1..] + t;
    }
  }

  // ----- inversions

  function GreaterThan<T>(a: T, s: seq<T>, cmp: Compare<T>): nat {
    if s == [] then 0 else (if cmp(a, s[0]) > 0 then 1 else 0) + GreaterThan(a, s[1..], cmp)
  }

  /** The number of pairs that stand in the wrong order. */
  function Inversions<T>(s: seq<T>, cmp: Compare<T>): nat {
    if s == [] then 0 else GreaterThan(s[0], s[1..], cmp) + Inversions(s[1..], cmp)
  }

  lemma {:induction false} GreaterThanAppend<T>(a: T, s: seq<T>, t: seq<T>, cmp: Compare<T>)
    ensures GreaterThan(a, s + t, cmp) == GreaterThan(a, s, cmp) + GreaterThan(a, t, cmp)
  {
    if s == [] {
      assert s + t == t;
    } else {
      GreaterThanAppend(a, s[1..], t, cmp);
      assert (s + t)[1..] == s[1..] + t;
    }
  }

  function SwapNeighbours<T>(s: seq<T>, i: nat): seq<T>
    requires i + 1 < |s|
  {
    s[i := s[i + 1]][i + 1 := s[i]]
  }

  lemma SwapSplit<T>(s: seq<T>, i: nat)
    requires i + 1 < |s|
    ensures s == s[..i] + ([s[i], s[i + 1]] + s[i + 2..])
    ensures SwapNeighbours(s, i) == s[..i] + ([s[i + 1], s[i]] + s[i + 2..])
  {
  }

  /** Exchanging two neighbours in the wrong order removes exactly one inversion. */
  lemma {:induction false} SwapRemovesInversion<T(!new)>(s: seq<T>, i: nat, cmp: Compare<T>)
    requires TotalPreorder(cmp) && i + 1 < |s| && cmp(s[i], s[i + 1]) > 0
    ensures Inversions(SwapNeighbours(s, i), cmp) == Inversions(s, cmp) - 1
    decreases i
  {
    var t := SwapNeighbours(s, i);
    if i == 0 {
      var a, b, rest := s[0], s[1], s[2..];
      assert s[1..] == [b] + rest && t[1..] == [a] + rest;
      assert s[1..][1..] == rest && t[1..][1..] == rest;
      assert cmp(b, a) < 0;
    } else {
      SwapRemovesInversion(s[1..], i - 1, cmp);
      assert t[1..] == SwapNeighbours(s[1..], i - 1);
      SwapSplit(s[1..], i - 1);
      var p, q, a, b := s[1..][..i - 1], s[1..][i + 1..], s[i], s[i + 1];
      GreaterThanAppend(s[0], p, [a, b] + q, cmp);
      GreaterThanAppend(s[0], p, [b, a] + q, cmp);
      GreaterThanAppend(s[0], [a, b], q, cmp);
      GreaterThanAppend(s[0], [b, a], q, cmp);
      GreaterThanPair(s[0], a, b, cmp);
      GreaterThanPair(s[0], b, a, cmp);
    }
  }

  lemma GreaterThanPair<T>(x: T, a: T, b: T, cmp: Compare<T>)
    ensures GreaterThan(x, [a, b], cmp) == (if cmp(x, a) > 0 then 1 else 0) + (if cmp(x, b) > 0 then 1 else 0)
  {
    assert [a, b][1..] == [b];
    assert [b][1..] == [];
    assert GreaterThan(x, [b], cmp) == if cmp(x, b) > 0 then 1 else 0;
  }

  lemma EqualToPair<T>(x: T, a: T, b: T, cmp: Compare<T>)
    ensures EqualTo([a, b], x, cmp)
      == (if cmp(x, a) == 0 then [a] else []) + (if cmp(x, b) == 0 then [b] else [])
  {
    EqualToOne(x, b, cmp);
    assert [a, b][1..] == [b];
  }

  lemma EqualToOne<T>(x: T, a: T, cmp: Compare<T>)
    ensures EqualTo([a], x, cmp) == if cmp(x, a) == 0 then [a] else []
  {
    assert [a][1..] == [];
  }

  lemma EqualToBoth<T(!new)>(x: T, a: T, b: T, cmp: Compare<T>)
    requires TotalPreorder(cmp) && cmp(x, a) == 0 && cmp(x, b) == 0
    ensures cmp(a, b) <= 0
  {
    assert cmp(a, x) <= 0 by {
      assert cmp(a, x) > 0 <==> cmp(x, a) < 0;
    }
  }

  lemma BelowAndAtMost<T(!new)>(a: T, b: T, c: T, cmp: Compare<T>)
    requires TotalPreorder(cmp) && cmp(a, b) < 0 && cmp(b, c) <= 0
    ensures cmp(a, c) < 0
  {
    assert cmp(b, a) > 0;
    assert cmp(c, a) <= 0 ==> cmp(b, a) <= 0;
    assert cmp(c, a) > 0 <==> cmp(a, c) < 0;
  }

  /** Exchanging two neighbours that are not equal disturbs no group of equal elements. */
  lemma SwapIsStable<T(!new)>(s: seq<T>, i: nat, cmp: Compare<T>)
    requires TotalPreorder(cmp) && i + 1 < |s| && cmp(s[i], s[i + 1]) > 0
    ensures StableRearrangement(s, SwapNeighbours(s, i), cmp)
  {
    var a, b, p, q := s[i], s[i + 1], s[..i], s[i + 2..];
    SwapSplit(s, i);
    assert multiset(s) == multiset(p) + (multiset([a, b]) + multiset(q));
    assert multiset(SwapNeighbours(s, i)) == multiset(p) + (multiset([b, a]) + multiset(q));
    forall x ensures EqualTo(SwapNeighbours(s, i), x, cmp) == EqualTo(s, x, cmp) {
      SwapKeepsEqualTo(p, a, b, q, x, cmp);
    }
  }

  lemma SwapKeepsEqualTo<T(!new)>(p: seq<T>, a: T, b: T, q: seq<T>, x: T, cmp: Compare<T>)
    requires TotalPreorder(cmp) && cmp(a, b) > 0
    ensures EqualTo(p + ([b, a] + q), x, cmp) == EqualTo(p + ([a, b] + q), x, cmp)
  {
    hide EqualTo;
    EqualToAppend(p, [a, b] + q, x, cmp);
    EqualToAppend(p, [b, a] + q, x, cmp);
    EqualToAppend([a, b], q, x, cmp);
    EqualToAppend([b, a], q, x, cmp);
    EqualToPair(x, a, b, cmp);
    EqualToPair(x, b, a, cmp);
    if cmp(x, a) == 0 && cmp(x, b) == 0 {
      EqualToBoth(x, a, b, cmp);
    }
  }

  lemma {:induction false} NeighboursSorted<T(!new)>(s: seq<T>, cmp: Compare<T>)
    requires TotalPreorder(cmp)
    requires forall i | 0 <= i < |s| - 1 :: cmp(s[i], s[i + 1]) <= 0
    ensures Sorted(s, cmp)
  {
    forall i, j | 0 <= i < j < |s| ensures cmp(s[i], s[j]) <= 0 {
      var k := i + 1;
      while k < j
        invariant i < k <= j && cmp(s[i], s[k]) <= 0
      {
        assert cmp(s[k], s[k + 1]) <= 0;
        k := k + 1;
      }
    }
  }

  // ----- ordered insertion

  /** The number of leading elements that p does not precede. */
  function InsertPosition<T>(s: seq<T>, p: T, cmp: Compare<T>): (k: nat)
    ensures k <= |s|
    ensures forall j | 0 <= j < k :: cmp(p, s[j]) >= 0
    ensures k < |s| ==> cmp(p, s[k]) < 0
  {
    if s == [] || cmp(p, s[0]) < 0 then 0 else 1 + InsertPosition(s[1..], p, cmp)
  }

  function Insert<T>(s: seq<T>, k: nat, p: T): seq<T>
    requires k <= |s|
  {
    s[..k] + [p] + s[k..]
  }

  function Without<T>(s: seq<T>, k: nat): seq<T>
    requires k < |s|
  {
    s[..k] + s[k + 1..]
  }

  /** In a sorted sequence, everything before the insert position is at most p and everything after is greater. */
  lemma InsertPositionSplits<T(!new)>(s: seq<T>, p: T, cmp: Compare<T>)
    requires TotalPreorder(cmp) && Sorted(s, cmp)
    ensures forall j | 0 <= j < |s| :: cmp(s[j], p) <= 0 <==> j < InsertPosition(s, p, cmp)
    ensures forall j | InsertPosition(s, p, cmp) <= j < |s| :: cmp(p, s[j]) < 0
  {
    var k := InsertPosition(s, p, cmp);
    forall j | k <= j < |s| ensures cmp(p, s[j]) < 0 && cmp(s[j], p) > 0 {
      if k < j {
        hide InsertPosition;
        BelowAndAtMost(p, s[k], s[j], cmp);
      }
    }
    forall j | 0 <= j < k ensures cmp(s[j], p) <= 0 {
      assert cmp(p, s[j]) >= 0;
    }
  }

  /** So looking for an element equal to p may stop at the insert position. */
  lemma EqualsAreBeforeInsertPosition<T(!new)>(s: seq<T>, p: T, cmp: Compare<T>)
    requires TotalPreorder(cmp) && Sorted(s, cmp)
    ensures (exists j | 0 <= j < |s| :: cmp(p, s[j]) == 0)
       <==> (exists j | 0 <= j < InsertPosition(s, p, cmp) :: cmp(p, s[j]) == 0)
  {
    hide TotalPreorder, Sorted;
    InsertPositionSplits(s, p, cmp);
  }

  lemma InsertedPair<T>(s: seq<T>, k: nat, p: T, cmp: Compare<T>, i: nat, j: nat)
    requires k <= |s| && i < j <= |s| && Sorted(s, cmp)
    requires i < k ==> cmp(s[i], p) <= 0
    requires k < j ==> cmp(p, s[j - 1]) < 0
    ensures cmp(Insert(s, k, p)[i], Insert(s, k, p)[j]) <= 0
  {
    var t := Insert(s, k, p);
    assert t[i] == if i < k then s[i] else if i == k then p else s[i - 1];
    assert t[j] == if j < k then s[j] else if j == k then p else s[j - 1];
  }

  /** Ordered insertion keeps a sorted list sorted. */
  lemma InsertKeepsOrder<T(!new)>(s: seq<T>, p: T, cmp: Compare<T>)
    requires TotalPreorder(cmp) && Sorted(s, cmp)
    ensures Sorted(Insert(s, InsertPosition(s, p, cmp), p), cmp)
  {
    hide InsertPosition, TotalPreorder;
    var k := InsertPosition(s, p, cmp);
    InsertPositionSplits(s, p, cmp);
    forall i, j | 0 <= i < j <= |s| ensures cmp(Insert(s, k, p)[i], Insert(s, k, p)[j]) <= 0 {
      InsertedPair(s, k, p, cmp, i, j);
    }
  }

  /** It puts p behind the elements equal to it and leaves every other group alone. */
  lemma InsertIsLastOfEquals<T(!new)>(s: seq<T>, p: T, x: T, cmp: Compare<T>)
    requires TotalPreorder(cmp) && Sorted(s, cmp)
    ensures EqualTo(Insert(s, InsertPosition(s, p, cmp), p), x, cmp)
         == EqualTo(s, x, cmp) + (if cmp(x, p) == 0 then [p] else [])
  {
    hide InsertPosition, TotalPreorder, Sorted;
    var k := InsertPosition(s, p, cmp);
    EqualToAppend(s[..k] + [p], s[k..], x, cmp);
    EqualToAppend(s[..k], [p], x, cmp);
    assert s == s[..k] + s[k..];
    EqualToAppend(s[..k], s[k..], x, cmp);
    EqualToOne(x, p, cmp);
    if cmp(x, p) == 0 {
      NoEqualsBehind(s, p, x, cmp);
    }
  }

  lemma NoEqualsBehind<T(!new)>(s: seq<T>, p: T, x: T, cmp: Compare<T>)
    requires TotalPreorder(cmp) && Sorted(s, cmp) && cmp(x, p) == 0
    ensures EqualTo(s[InsertPosition(s, p, cmp)..], x, cmp) == []
  {
    var k := InsertPosition(s, p, cmp);
    InsertPositionSplits(s, p, cmp);
    forall j | 0 <= j < |s| - k ensures cmp(x, s[k..][j]) != 0 {
      assert cmp(s[k + j], p) > 0;
      if cmp(x, s[k + j]) == 0 {
        EqualToBoth(x, s[k + j], p, cmp);
      }
    }
    NoneEqual(s[k..], x, cmp);
  }

  lemma {:induction false} NoneEqual<T(!new)>(s: seq<T>, x: T, cmp: Compare<T>)
    requires forall j | 0 <= j < |s| :: cmp(x, s[j]) != 0
    ensures EqualTo(s, x, cmp) == []
  {
    if s != [] {
      NoneEqual(s[1..], x, cmp);
    }
  }

  /** If p equals no element, ordered insertion keeps a strictly sorted list strictly sorted. */
  lemma InsertKeepsStrictOrder<T(!new)>(s: seq<T>, p: T, cmp: Compare<T>)
    requires TotalPreorder(cmp) && StrictlySorted(s, cmp)
    requires forall j | 0 <= j < InsertPosition(s, p, cmp) :: cmp(p, s[j]) != 0
    ensures StrictlySorted(Insert(s, InsertPosition(s, p, cmp), p), cmp)
  {
    var k := InsertPosition(s, p, cmp);
    InsertPositionSplits(s, p, cmp);
    var t := Insert(s, k, p);
    forall i, j | 0 <= i < j < |t| ensures cmp(t[i], t[j]) < 0 {
      if j == k {
        assert cmp(p, s[i]) > 0;
      } else if i == k {
        assert cmp(p, s[j - 1]) < 0;
      }
    }
  }

  /** What laddo promises on a sorted list: it stays sorted, and dup tells whether an equal element was there. */
  ghost predicate OrderKept<T(!new)>(s: seq<T>, t: seq<T>, p: T, cmp: Compare<T>, dup: bool) {
    TotalPreorder(cmp) && Sorted(s, cmp) ==>
      Sorted(t, cmp) && (dup <==> exists j | 0 <= j < |s| :: cmp(p, s[j]) == 0)
  }

  lemma InsertedInOrder<T(!new)>(s: seq<T>, t: seq<T>, p: T, cmp: Compare<T>, dup: bool)
    requires t == s || t == Insert(s, InsertPosition(s, p, cmp), p)
    requires dup <==> exists j | 0 <= j < InsertPosition(s, p, cmp) :: cmp(p, s[j]) == 0
    ensures OrderKept(s, t, p, cmp, dup)
  {
    hide InsertPosition, TotalPreorder, Sorted;
    if TotalPreorder(cmp) && Sorted(s, cmp) {
      EqualsAreBeforeInsertPosition(s, p, cmp);
      InsertKeepsOrder(s, p, cmp);
    }
  }

  /** What laddu promises on a strictly sorted list. */
  ghost predicate StrictOrderKept<T(!new)>(s: seq<T>, t: seq<T>, p: T, cmp: Compare<T>, added: bool) {
    TotalPreorder(cmp) && StrictlySorted(s, cmp) ==>
      StrictlySorted(t, cmp) && (added <==> forall j | 0 <= j < |s| :: cmp(p, s[j]) != 0)
  }

  lemma InsertUnique<T(!new)>(s: seq<T>, t: seq<T>, p: T, cmp: Compare<T>, added: bool)
    requires t == s || (added && t == Insert(s, InsertPosition(s, p, cmp), p))
    requires added <==> forall j | 0 <= j < InsertPosition(s, p, cmp) :: cmp(p, s[j]) != 0
    ensures StrictOrderKept(s, t, p, cmp, added)
  {
    hide InsertPosition, TotalPreorder;
    if TotalPreorder(cmp) && StrictlySorted(s, cmp) {
      assert Sorted(s, cmp);
      EqualsAreBeforeInsertPosition(s, p, cmp);
      if added {
        InsertKeepsStrictOrder(s, p, cmp);
      }
    }
  }

  lemma {:induction false} InsertPositionIs<T>(s: seq<T>, p: T, cmp: Compare<T>, k: nat)
    requires k <= |s|
    requires forall j | 0 <= j < k :: cmp(p, s[j]) >= 0
    requires k < |s| ==> cmp(p, s[k]) < 0
    ensures InsertPosition(s, p, cmp) == k
  {
    if k > 0 {
      InsertPositionIs(s[1..], p, cmp, k - 1);
    }
  }

  lemma {:induction false} EqualIsPassed<T>(s: seq<T>, p: T, cmp: Compare<T>, k: nat)
    requires k < |s| && cmp(p, s[k]) == 0
    requires forall j | 0 <= j < k :: cmp(p, s[j]) > 0
    ensures k < InsertPosition(s, p, cmp)
  {
    if k > 0 {
      EqualIsPassed(s[1..], p, cmp, k - 1);
    }
  }

  /** j is the last of the first k elements that equals p. */
  predicate LastEqual<T>(s: seq<T>, p: T, cmp: Compare<T>, k: nat, j: nat)
    requires k <= |s|
  {
    j < k && cmp(p, s[j]) == 0 && forall i | j < i < k :: cmp(p, s[i]) != 0
  }

  lemma StableReflexive<T(!new)>(s: seq<T>, cmp: Compare<T>)
    ensures StableRearrangement(s, s, cmp)
  {
  }

  lemma StableTransitive<T(!new)>(s: seq<T>, t: seq<T>, u: seq<T>, cmp: Compare<T>)
    requires StableRearrangement(s, t, cmp) && StableRearrangement(t, u, cmp)
    ensures StableRearrangement(s, u, cmp)
  {
  }
}
