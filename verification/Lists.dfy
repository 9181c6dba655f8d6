/** The doubly linked list of lists.c.  Nodes come from pools that the list
    allocates; removed nodes go to a free chain threaded through their own next
    fields and are used again. */
module Lists {
  import opened Options
  import opened ListOrder
  import opened Sequences

  class Node<T> {
    var next: Node?<T>
    var prev: Node?<T>
    var data: Option<T>

    constructor ()
      ensures next == null && prev == null && data == None
    {
      next, prev, data := null, null, None;
    }
  }

  // ----- shapes of node sequences

  ghost function At<T>(nodes: seq<Node<T>>, i: int): Node?<T> {
    if 0 <= i < |nodes| then nodes[i] else null
  }

  /** Node i points to its neighbours on both sides. */
  ghost predicate LinkedAt<T>(nodes: seq<Node<T>>, i: nat)
    requires i < |nodes|
    reads nodes
  {
    nodes[i].next == At(nodes, i + 1) && nodes[i].prev == At(nodes, i - 1)
  }

  ghost predicate Linked<T>(nodes: seq<Node<T>>)
    reads nodes
  {
    forall i | 0 <= i < |nodes| :: LinkedAt(nodes, i)
  }

  ghost predicate ChainedAt<T>(nodes: seq<Node<T>>, i: nat)
    requires i < |nodes|
    reads nodes
  {
    nodes[i].next == At(nodes, i + 1)
  }

  /** Only the next fields matter on the free chain. */
  ghost predicate Chained<T>(nodes: seq<Node<T>>)
    reads nodes
  {
    forall i | 0 <= i < |nodes| :: ChainedAt(nodes, i)
  }

  ghost function Elements<X>(s: seq<X>): set<X> {
    set x | x in s
  }

  lemma Member<X>(s: seq<X>, i: nat)
    requires i < |s|
    ensures s[i] in Elements(s)
  {
  }

  lemma InsertElement<X>(s: seq<X>, k: nat, x: X)
    requires Distinct(s) && x !in Elements(s) && k <= |s|
    ensures Distinct(Insert(s, k, x)) && Elements(Insert(s, k, x)) == Elements(s) + {x}
  {
    assert s == s[..k] + s[k..];
  }

  lemma RemoveElement<X>(s: seq<X>, k: nat)
    requires Distinct(s) && k < |s|
    ensures Distinct(Without(s, k)) && Elements(Without(s, k)) == Elements(s) - {s[k]}
  {
    assert s == s[..k] + [s[k]] + s[k + 1..];
  }

  lemma DropFirst<X>(s: seq<X>)
    requires Distinct(s) && s != []
    ensures Distinct(s[1..]) && Elements(s[1..]) == Elements(s) - {s[0]} && s[0] in Elements(s)
  {
    assert s == [s[0]] + s[1..];
  }

  /** A block of nodes allocated at once. */
  class NodePool<T> {
    const nodes: seq<Node<T>>
    var chainNext: NodePool?<T>
    var chainPrev: NodePool?<T>

    constructor (nodes: seq<Node<T>>)
      ensures this.nodes == nodes && chainNext == null && chainPrev == null
    {
      this.nodes := nodes;
      chainNext, chainPrev := null, null;
    }
  }

  ghost function NodesOf<T>(pools: seq<NodePool<T>>): set<Node<T>> {
    set i, j | 0 <= i < |pools| && 0 <= j < |pools[i].nodes| :: pools[i].nodes[j]
  }

  lemma NodesOfAppend<T>(pools: seq<NodePool<T>>, np: NodePool<T>)
    ensures NodesOf(pools + [np]) == NodesOf(pools) + Elements(np.nodes)
  {
    var more := pools + [np];
    forall x | x in NodesOf(pools) ensures x in NodesOf(more) {
      var i, j :| 0 <= i < |pools| && 0 <= j < |pools[i].nodes| && x == pools[i].nodes[j];
      assert more[i].nodes[j] == x;
    }
    forall x | x in Elements(np.nodes) ensures x in NodesOf(more) {
      var j :| 0 <= j < |np.nodes| && np.nodes[j] == x;
      assert more[|pools|].nodes[j] == x;
    }
    forall x | x in NodesOf(more) ensures x in NodesOf(pools) || x in Elements(np.nodes) {
      var i, j :| 0 <= i < |more| && 0 <= j < |more[i].nodes| && x == more[i].nodes[j];
      if i < |pools| {
        assert pools[i].nodes[j] == x;
      }
    }
  }

  /** new_nodepool: n fresh nodes chained in order. */
  method NewNodepool<T>(n: nat) returns (np: NodePool<T>)
    requires n >= 5
    ensures fresh(np) && np.chainNext == null && np.chainPrev == null
    ensures |np.nodes| == n && fresh(np.nodes) && Distinct(np.nodes) && Chained(np.nodes)
  {
    var ln: seq<Node<T>> := [];
    while |ln| < n
      invariant |ln| <= n && fresh(ln) && Distinct(ln)
    {
      var node := new Node<T>();
      ln := ln + [node];
    }
    ln[0].data, ln[0].next, ln[0].prev := None, ln[1], null;
    var i := 1;
    while i < n - 1
      invariant 1 <= i <= n - 1
      invariant forall k | 0 <= k < i :: ChainedAt(ln, k)
      modifies ln
    {
      label Before:
      ln[i].data, ln[i].next, ln[i].prev := None, ln[i + 1], ln[i - 1];
      forall k | 0 <= k < i ensures ChainedAt(ln, k) {
        assert old@Before(ChainedAt(ln, k)) && ln[k] != ln[i];
      }
      i := i + 1;
    }
    label Last:
    ln[n - 1].data, ln[n - 1].next, ln[n - 1].prev := None, null, ln[n - 2];
    np := new NodePool(ln);
    forall k | 0 <= k < n ensures ChainedAt(np.nodes, k) {
      if k < n - 1 {
        assert old@Last(ChainedAt(ln, k)) && ln[k] != ln[n - 1];
      }
    }
  }

  // ----- the list

  /** When lins_n finds a place. */
  predicate InsertPossible(num: nat, n: nat) {
    if num == 0 then n == 1 else 1 <= n <= num
  }

  /** How many nodes are free, and how often memory was asked for. */
  datatype Stock = Stock(free: nat, asked: nat)

  /** The next node is there, or the memory allocator grants a pool. */
  predicate Available(s: Stock, grants: nat -> bool) {
    s.free > 0 || grants(s.asked)
  }

  function AfterTaking(s: Stock, poolSize: nat, grants: nat -> bool): Stock {
    if s.free > 0 then Stock(s.free - 1, s.asked)
    else Stock(if grants(s.asked) && poolSize > 0 then poolSize - 1 else 0, s.asked + 1)
  }

  /** The elements of s for which a node is found when they are added one after the other. */
  function Kept<T>(s: seq<T>, stock: Stock, poolSize: nat, grants: nat -> bool): seq<T> {
    if s == [] then []
    else (if Available(stock, grants) then [s[0]] else []) + Kept(s[1..], AfterTaking(stock, poolSize, grants), poolSize, grants)
  }

  lemma {:induction false} AllKept<T>(s: seq<T>, stock: Stock, poolSize: nat, grants: nat -> bool)
    requires stock.free >= |s| || forall k :: grants(k)
    ensures Kept(s, stock, poolSize, grants) == s
  {
    if s != [] {
      AllKept(s[1..], AfterTaking(stock, poolSize, grants), poolSize, grants);
    }
  }

  class List<T(==, !new)> {
    var num: int
    const nLnPool: nat
    /** The answer of the memory allocator to request number k, and the requests made. */
    const grants: nat -> bool
    var asked: nat
    var top: Node?<T>
    var bottom: Node?<T>
    var nextLn: Node?<T>
    var npTop: NodePool?<T>
    var npBottom: NodePool?<T>
    ghost var live: seq<Node<T>>
    ghost var free: seq<Node<T>>
    ghost var pools: seq<NodePool<T>>
    ghost var contents: seq<T>

    ghost function PoolNodes(): set<Node<T>>
      reads this
    {
      NodesOf(pools)
    }

    /** Every object that belongs to the list. */
    ghost function Footprint(): set<object>
      reads this
    {
      {this} + PoolNodes() + Elements(pools)
    }

    ghost predicate Holds(i: nat)
      requires i < |live| && i < |contents|
      reads this, live
    {
      live[i].data == Some(contents[i])
    }

    /** The live chain carries the contents. */
    ghost predicate LiveInv()
      reads this, live
    {
      && Distinct(live) && Linked(live)
      && top == At(live, 0) && bottom == At(live, |live| - 1)
      && num == |live| == |contents|
      && forall i | 0 <= i < |live| :: Holds(i)
    }

    ghost predicate FreeInv()
      reads this, free
    {
      Distinct(free) && Chained(free) && nextLn == At(free, 0)
    }

    /** Live nodes, free nodes and the node in hand make up the pools, each exactly once. */
    ghost predicate Partition(inHand: set<Node<T>>)
      reads this
    {
      && nLnPool >= 5
      && (pools == [] <==> npTop == null) && (npTop == null <==> npBottom == null)
      && (npBottom != null ==> npBottom == pools[|pools| - 1])
      && Elements(live) !! Elements(free) !! inHand
      && Elements(live) + Elements(free) + inHand == PoolNodes()
    }

    ghost predicate Valid()
      reads this, live, free
    {
      LiveInv() && FreeInv() && Partition({})
    }

    ghost function StockNow(): Stock
      reads this
    {
      Stock(|free|, asked)
    }

    /** A node can be had for one more element. */
    ghost predicate NodeAvailable()
      reads this
    {
      Available(StockNow(), grants)
    }

    /** lcreat, for at least five nodes a pool. */
    constructor (nLnPool: nat, grants: nat -> bool)
      requires nLnPool >= 5
      ensures Valid() && contents == [] && Footprint() == {this}
      ensures this.nLnPool == nLnPool && this.grants == grants && StockNow() == Stock(0, 0)
    {
      this.grants, asked := grants, 0;
      num, top, bottom, nextLn, npTop, npBottom := 0, null, null, null, null, null;
      this.nLnPool := nLnPool;
      live, free, pools, contents := [], [], [], [];
    }

    /** The allocating half of get_listnode: chain a new pool and put its nodes on the empty free chain. */
    method AddPool()
      requires Valid() && free == []
      modifies this`nextLn, this`npTop, this`npBottom, this`free, this`pools, pools
      ensures Valid() && free != [] && fresh(free)
      ensures |pools| == |old(pools)| + 1 && pools[..|old(pools)|] == old(pools) && fresh(pools[|old(pools)|])
      ensures |free| == nLnPool && free == pools[|old(pools)|].nodes
    {
      hide NodesOf, Distinct;
      var np := NewNodepool<T>(nLnPool);
      ChainPool(np);
      Member(np.nodes, 0);
      nextLn := np.nodes[0];
      free := np.nodes;
      forall i | 0 <= i < |live| ensures LinkedAt(live, i) && Holds(i) {
        assert old(LinkedAt(live, i)) && old(Holds(i));
      }
    }

    method ChainPool(np: NodePool<T>)
      requires Partition({})
      modifies this`npTop, this`npBottom, this`pools, pools, np
      ensures pools == old(pools) + [np] && npTop != null && npBottom == np
      ensures PoolNodes() == old(PoolNodes()) + Elements(np.nodes)
    {
      NodesOfAppend(pools, np);
      if npTop == null {
        npTop, npBottom := np, np;
        np.chainNext, np.chainPrev := null, null;
      } else {
        np.chainNext, np.chainPrev := null, npBottom;
        npBottom.chainNext := np;
        npBottom := np;
      }
      pools := pools + [np];
    }

    /** A request for memory. */
    method Ask() returns (ok: bool)
      requires Valid()
      modifies this`asked
      ensures Valid() && ok == grants(old(asked)) && asked == old(asked) + 1
    {
      ok := grants(asked);
      asked := asked + 1;
      forall i | 0 <= i < |live| ensures LinkedAt(live, i) && Holds(i) {
        assert old(LinkedAt(live, i)) && old(Holds(i));
      }
    }

    /** get_listnode; the memory allocator may refuse. */
    method GetListnode() returns (ln: Node?<T>)
      requires Valid()
      modifies this`asked, this`nextLn, this`npTop, this`npBottom, this`free, this`pools, pools, free
      ensures LiveInv() && FreeInv()
      ensures fresh(Footprint() - old(Footprint()))
      ensures ln == null ==> Valid() && free == old(free) && pools == old(pools)
      ensures ln != null ==> Partition({ln}) && ln.next == null && ln.prev == null
      ensures old(free) != [] ==> ln == old(free)[0] && free == old(free)[1..]
      ensures ln != null <==> old(NodeAvailable())
      ensures StockNow() == AfterTaking(old(StockNow()), nLnPool, grants)
    {
      hide LiveInv, FreeInv, Distinct;
      FreeTells();
      if nextLn == null {
        var ok := Ask();
        if !ok {
          return null;
        }
        AddPool();
      }
      ln := PopFree();
    }

    lemma FreeTells()
      requires Valid()
      ensures nextLn == null <==> free == []
    {
    }

    method PopFree() returns (ln: Node<T>)
      requires Valid() && free != []
      modifies this`nextLn, this`free, free
      ensures LiveInv() && FreeInv() && Partition({ln})
      ensures ln == old(free)[0] && free == old(free)[1..]
      ensures ln.next == null && ln.prev == null
    {
      hide Elements, Distinct;
      ln := nextLn;
      assert ChainedAt(free, 0);
      DropFirst(free);
      nextLn := ln.next;
      free := free[1..];
      ln.next, ln.prev, ln.data := null, null, None;
      forall i | 0 <= i < |free| ensures ChainedAt(free, i) {
        Member(free, i);
        assert old(ChainedAt(free, i + 1));
      }
      forall i | 0 <= i < |live| ensures LinkedAt(live, i) && Holds(i) {
        Member(live, i);
        assert old(LinkedAt(live, i)) && old(Holds(i));
      }
    }

    /** free_listnode: the node becomes the first free one. */
    method FreeListnode(ln: Node<T>)
      requires LiveInv() && FreeInv() && Partition({ln})
      modifies this`nextLn, this`free, ln
      ensures Valid() && free == [ln] + old(free)
    {
      ln.prev, ln.data := null, None;
      ln.next := nextLn;
      nextLn := ln;
      free := [ln] + free;
      Untouched(ln);
      forall i | 0 <= i < |free| ensures ChainedAt(free, i) {
        if i > 0 {
          assert old(ChainedAt(free, i - 1)) && old(free)[i - 1] in Elements(old(free));
        }
      }
      assert Elements(free) == {ln} + Elements(old(free));
    }

    /** Writing to a node outside the live chain leaves the live chain alone. */
    twostate lemma Untouched(ln: Node<T>)
      requires old(LiveInv()) && ln !in Elements(live)
      requires live == old(live) && contents == old(contents) && num == old(num)
      requires top == old(top) && bottom == old(bottom)
      requires forall x: Node<T> | x in live && x != ln :: unchanged(x)
      ensures LiveInv()
    {
      forall i | 0 <= i < |live| ensures LinkedAt(live, i) && Holds(i) {
        assert old(LinkedAt(live, i)) && old(Holds(i)) && live[i] in Elements(live);
      }
    }

    /** ladd: append, unless there is no memory for a node. */
    method Ladd(p: T) returns (rc: int)
      requires Valid()
      modifies Footprint()
      ensures Valid() && fresh(Footprint() - old(Footprint()))
      ensures rc == if old(NodeAvailable()) then 0 else -1
      ensures StockNow() == AfterTaking(old(StockNow()), nLnPool, grants)
      ensures contents == if rc == 0 then old(contents) + [p] else old(contents)
      ensures rc == -1 ==> live == old(live) && free == old(free) && pools == old(pools)
    {
      hide NodesOf, Distinct;
      var lnptr := GetListnode();
      if lnptr == null {
        return -1;
      }
      LinkLast(lnptr, p);
      rc := 0;
    }

    /** The linking half of ladd. */
    method LinkLast(lnptr: Node<T>, p: T)
      requires LiveInv() && FreeInv() && Partition({lnptr})
      modifies this`num, this`top, this`bottom, this`live, this`contents, lnptr, live
      ensures Valid() && live == old(live) + [lnptr] && contents == old(contents) + [p]
    {
      hide Elements, Distinct, At;
      ghost var live0 := live;
      SpliceLast(lnptr, p);
      live := live + [lnptr];
      contents := contents + [p];
      InsertedAt(live0, old(contents), num - 1, lnptr, p);
    }

    /** The pointer writes of ladd. */
    method SpliceLast(lnptr: Node<T>, p: T)
      requires LiveInv() && FreeInv() && Partition({lnptr})
      modifies this`num, this`top, this`bottom, lnptr, live
      ensures FreeInv() && num == old(num) + 1
      ensures lnptr.data == Some(p) && lnptr.next == At(live, |live|) && lnptr.prev == At(live, |live| - 1)
      ensures forall i {:trigger live[i].data} | 0 <= i < |live| :: live[i].data == Some(contents[i])
      ensures forall i {:trigger live[i].next} | 0 <= i < |live| ::
        live[i].next == if i == |live| - 1 then lnptr else At(live, i + 1)
      ensures forall i {:trigger live[i].prev} | 0 <= i < |live| :: live[i].prev == At(live, i - 1)
      ensures top == (if live == [] then lnptr else At(live, 0)) && bottom == lnptr
    {
      hide Elements, Distinct;
      LiveFacts();
      lnptr.data := Some(p);
      if top == null {
        top, bottom := lnptr, lnptr;
        lnptr.next, lnptr.prev := null, null;
      } else {
        lnptr.prev, lnptr.next := bottom, null;
        bottom.next := lnptr;
        bottom := lnptr;
      }
      num := num + 1;
      forall i | 0 <= i < |free| ensures ChainedAt(free, i) {
        Member(free, i);
        assert old(ChainedAt(free, i));
      }
    }

    lemma ChainsInFootprint()
      requires Valid()
      ensures (forall x | x in live :: x in Footprint()) && (forall x | x in free :: x in Footprint())
    {
      forall x | x in live
        ensures x in Footprint()
      {
        assert x in Elements(live);
      }
      forall x | x in free
        ensures x in Footprint()
      {
        assert x in Elements(free);
      }
    }

    lemma NumIsLength()
      requires Valid()
      ensures num == |contents| == |live|
    {
    }

    lemma LiveFacts()
      requires LiveInv()
      ensures forall i | 0 <= i < |live| :: live[i] in Elements(live)
      ensures forall i, j | 0 <= i < j < |live| :: live[i] != live[j]
      ensures forall i {:trigger live[i].next} | 0 <= i < |live| :: live[i].next == At(live, i + 1)
      ensures forall i {:trigger live[i].prev} | 0 <= i < |live| :: live[i].prev == At(live, i - 1)
      ensures forall i {:trigger live[i].data} | 0 <= i < |live| :: live[i].data == Some(contents[i])
      ensures forall x | x in live :: x in Elements(live)
    {
      forall i | 0 <= i < |live|
        ensures live[i].next == At(live, i + 1) && live[i].prev == At(live, i - 1)
        ensures live[i].data == Some(contents[i])
      {
        assert LinkedAt(live, i) && Holds(i);
      }
    }

    /** What the nodes of live0 must look like after an insertion of x before position k. */
    lemma InsertedAt(live0: seq<Node<T>>, contents0: seq<T>, k: nat, x: Node<T>, p: T)
      requires Distinct(live0) && x !in Elements(live0) && k <= |live0| == |contents0|
      requires live == Insert(live0, k, x) && contents == Insert(contents0, k, p) && num == |live|
      requires x.data == Some(p) && x.next == At(live0, k) && x.prev == At(live0, k - 1)
      requires forall i {:trigger live0[i].data} | 0 <= i < |live0| :: live0[i].data == Some(contents0[i])
      requires forall i {:trigger live0[i].next} | 0 <= i < |live0| :: live0[i].next == if i == k - 1 then x else At(live0, i + 1)
      requires forall i {:trigger live0[i].prev} | 0 <= i < |live0| :: live0[i].prev == if i == k then x else At(live0, i - 1)
      requires top == (if k == 0 then x else At(live0, 0))
      requires bottom == (if k == |live0| then x else At(live0, |live0| - 1))
      ensures LiveInv() && Elements(live) == Elements(live0) + {x}
    {
      hide Elements, Distinct;
      InsertElement(live0, k, x);
      forall i | 0 <= i < |live| ensures LinkedAt(live, i) && Holds(i) {
        if i < k {
          assert live[i] == live0[i];
        } else if i > k {
          assert live[i] == live0[i - 1];
        }
      }
    }

    /** What the nodes of live0 must look like after the removal of the one at position k. */
    lemma RemovedAt(live0: seq<Node<T>>, contents0: seq<T>, k: nat)
      requires Distinct(live0) && k < |live0| == |contents0|
      requires live == Without(live0, k) && contents == Without(contents0, k) && num == |live|
      requires forall i {:trigger live0[i].data} | 0 <= i < |live0| && i != k :: live0[i].data == Some(contents0[i])
      requires forall i {:trigger live0[i].next} | 0 <= i < |live0| && i != k ::
        live0[i].next == At(live0, if i == k - 1 then k + 1 else i + 1)
      requires forall i {:trigger live0[i].prev} | 0 <= i < |live0| && i != k ::
        live0[i].prev == At(live0, if i == k + 1 then k - 1 else i - 1)
      requires top == At(live0, if k == 0 then 1 else 0)
      requires bottom == At(live0, if k == |live0| - 1 then k - 1 else |live0| - 1)
      ensures LiveInv() && Elements(live) == Elements(live0) - {live0[k]}
    {
      hide Elements, Distinct;
      RemoveElement(live0, k);
      forall i | 0 <= i < |live| ensures LinkedAt(live, i) && Holds(i) {
        if i < k {
          assert live[i] == live0[i];
        } else {
          assert live[i] == live0[i + 1];
        }
      }
    }

    /** insert_ln: insert before the node at position k; a null node means the end, and then the
        result is 0 even if there was no memory. */
    method InsertLn(ln: Node?<T>, ghost k: nat, p: T) returns (rc: int)
      requires Valid() && k <= |live| && ln == At(live, k)
      modifies Footprint()
      ensures Valid() && fresh(Footprint() - old(Footprint()))
      ensures rc == if ln == null || old(NodeAvailable()) then 0 else -1
      ensures contents == if old(NodeAvailable()) then Insert(old(contents), k, p) else old(contents)
      ensures StockNow() == AfterTaking(old(StockNow()), nLnPool, grants)
      ensures !old(NodeAvailable()) ==> live == old(live) && free == old(free) && pools == old(pools)
    {
      hide NodesOf, Distinct;
      if ln == null {
        var ignored := Ladd(p);
        rc := 0;
      } else {
        var lnptr := GetListnode();
        if lnptr == null {
          rc := -1;
        } else {
          LinkBefore(ln, k, lnptr, p);
          rc := 0;
        }
      }
    }

    /** The linking half of insert_ln. */
    method LinkBefore(ln: Node<T>, ghost k: nat, lnptr: Node<T>, p: T)
      requires LiveInv() && FreeInv() && Partition({lnptr})
      requires k < |live| && ln == live[k]
      modifies this`num, this`top, this`live, this`contents, lnptr, live
      ensures Valid() && live == Insert(old(live), k, lnptr) && contents == Insert(old(contents), k, p)
    {
      hide Elements, Distinct, At;
      ghost var live0 := live;
      SpliceIn(ln, k, lnptr, p);
      live := Insert(live, k, lnptr);
      contents := Insert(contents, k, p);
      InsertedAt(live0, old(contents), k, lnptr, p);
    }

    /** The pointer writes of insert_ln. */
    method SpliceIn(ln: Node<T>, ghost k: nat, lnptr: Node<T>, p: T)
      requires LiveInv() && FreeInv() && Partition({lnptr})
      requires k < |live| && ln == live[k]
      modifies this`num, this`top, lnptr, live
      ensures FreeInv() && num == old(num) + 1
      ensures lnptr.data == Some(p) && lnptr.next == At(live, k) && lnptr.prev == At(live, k - 1)
      ensures forall i {:trigger live[i].data} | 0 <= i < |live| :: live[i].data == Some(contents[i])
      ensures forall i {:trigger live[i].next} | 0 <= i < |live| ::
        live[i].next == if i == k - 1 then lnptr else At(live, i + 1)
      ensures forall i {:trigger live[i].prev} | 0 <= i < |live| ::
        live[i].prev == if i == k then lnptr else At(live, i - 1)
      ensures top == if k == 0 then lnptr else At(live, 0)
    {
      hide Elements, Distinct;
      LiveFacts();
      lnptr.data := Some(p);
      if ln == top {
        lnptr.next, lnptr.prev := ln, null;
        ln.prev := lnptr;
        top := lnptr;
      } else {
        lnptr.next, lnptr.prev := ln, ln.prev;
        lnptr.next.prev := lnptr;
        lnptr.prev.next := lnptr;
      }
      num := num + 1;
      forall i | 0 <= i < |free| ensures ChainedAt(free, i) {
        Member(free, i);
        assert old(ChainedAt(free, i));
      }
    }

    /** lins_n: insert before the nth element.  Only n - 1 steps down the list are
        taken, so on a non-empty list n = num + 1 is refused. */
    method LinsN(p: T, n: nat) returns (rc: int)
      requires Valid()
      modifies Footprint()
      ensures Valid() && fresh(Footprint() - old(Footprint()))
      ensures rc == if InsertPossible(|old(contents)|, n) && old(NodeAvailable()) then 0 else -1
      ensures rc == 0 ==> contents == Insert(old(contents), n - 1, p)
      ensures rc == -1 ==> contents == old(contents) && live == old(live)
      ensures !InsertPossible(|old(contents)|, n) ==> StockNow() == old(StockNow())
    {
      hide LiveInv, FreeInv, Partition, NodeAvailable, StockNow, Footprint, Available, AfterTaking, Insert, Distinct;
      NumIsLength();
      if n < 1 || n > num + 1 {
        return -1;
      }
      if num == 0 {
        rc := Ladd(p);
        InsertIntoEmpty(p);
        return;
      }
      var ln := Walk(n);
      if ln == null {
        return -1;
      }
      ghost var before := Footprint();
      label Walked:
      rc := InsertLn(ln, n - 1, p);
      forall o: object | o in Footprint() && o !in before
        ensures fresh(o)
      {
        assert fresh@Walked(o);
      }
    }

    lemma InsertIntoEmpty(p: T)
      ensures Insert([], 0, p) == [] + [p]
    {
    }

    /** The loop of lins_n and lrmv_n: n - 1 steps down the list. */
    method Walk(n: nat) returns (ln: Node?<T>)
      requires LiveInv() && 1 <= n <= |live| + 1
      ensures ln == At(live, n - 1)
    {
      LiveFacts();
      var i := 1;
      ln := top;
      while ln != null && i != n
        invariant 1 <= i <= n && ln == At(live, i - 1)
        decreases n - i
      {
        ln := ln.next;
        i := i + 1;
      }
    }

    /** remove_ln: unlink the node at position k and give it back to the free chain. */
    method RemoveLn(ln: Node<T>, ghost k: nat) returns (r: Option<T>)
      requires Valid() && k < |live| && ln == live[k]
      modifies this`num, this`top, this`bottom, this`live, this`contents, this`nextLn, this`free, live
      ensures Valid() && live == Without(old(live), k) && contents == Without(old(contents), k)
      ensures r == Some(old(contents)[k]) && free == [ln] + old(free)
    {
      LiveFacts();
      r := ln.data;
      Unlink(ln, k);
      FreeListnode(ln);
    }

    method Unlink(ln: Node<T>, ghost k: nat)
      requires Valid() && k < |live| && ln == live[k]
      modifies this`num, this`top, this`bottom, this`live, this`contents, live
      ensures LiveInv() && FreeInv() && Partition({ln})
      ensures live == Without(old(live), k) && contents == Without(old(contents), k)
    {
      hide Elements, Distinct, At;
      ghost var live0 := live;
      Member(live, k);
      SpliceOut(ln, k);
      live := Without(live, k);
      contents := Without(contents, k);
      RemovedAt(live0, old(contents), k);
    }

    /** The pointer writes of remove_ln. */
    method SpliceOut(ln: Node<T>, ghost k: nat)
      requires Valid() && k < |live| && ln == live[k]
      modifies this`num, this`top, this`bottom, live
      ensures FreeInv() && num == old(num) - 1
      ensures forall i {:trigger live[i].data} | 0 <= i < |live| && i != k :: live[i].data == Some(contents[i])
      ensures forall i {:trigger live[i].next} | 0 <= i < |live| && i != k ::
        live[i].next == At(live, if i == k - 1 then k + 1 else i + 1)
      ensures forall i {:trigger live[i].prev} | 0 <= i < |live| && i != k ::
        live[i].prev == At(live, if i == k + 1 then k - 1 else i - 1)
      ensures top == At(live, if k == 0 then 1 else 0)
      ensures bottom == At(live, if k == |live| - 1 then k - 1 else |live| - 1)
    {
      hide Elements, Distinct;
      LiveFacts();
      if ln == top {
        top := ln.next;
        if top != null {
          top.prev := null;
        } else {
          bottom := null;
        }
      } else if ln == bottom {
        bottom := ln.prev;
        if bottom != null {
          bottom.next := null;
        }
      } else {
        ln.prev.next := ln.next;
        ln.next.prev := ln.prev;
      }
      num := num - 1;
      forall i | 0 <= i < |free| ensures ChainedAt(free, i) {
        Member(free, i);
        assert old(ChainedAt(free, i));
      }
    }

    /** lrmv_n: remove the nth element. */
    method LrmvN(n: nat) returns (r: Option<T>)
      requires Valid()
      modifies Footprint()
      ensures Valid() && Footprint() == old(Footprint())
      ensures 1 <= n <= |old(contents)| ==>
        r == Some(old(contents)[n - 1]) && contents == Without(old(contents), n - 1)
      ensures !(1 <= n <= |old(contents)|) ==> r == None && contents == old(contents)
    {
      if n < 1 || n > num {
        return None;
      }
      var ln := Walk(n);
      r := RemoveLn(ln, n - 1);
    }

    /** lrmv_d: remove the first element equal to p. */
    method LrmvD(p: T) returns (r: Option<T>, ghost k: nat)
      requires Valid()
      modifies Footprint()
      ensures Valid() && Footprint() == old(Footprint())
      ensures r == if p in old(contents) then Some(p) else None
      ensures r == None ==> contents == old(contents)
      ensures r.Some? ==> k < |old(contents)| && old(contents)[k] == p && p !in old(contents)[..k]
      ensures r.Some? ==> contents == Without(old(contents), k)
    {
      var ln := top;
      k := 0;
      LiveFacts();
      while ln != null && ln.data != Some(p)
        invariant 0 <= k <= |live| && ln == At(live, k)
        invariant p !in contents[..k]
        decreases |live| - k
      {
        ln := ln.next;
        k := k + 1;
      }
      if ln == null {
        assert contents[..k] == contents;
        return None, k;
      }
      r := RemoveLn(ln, k);
    }

    /** laddo: ordered insertion.  firstdup is left at the last element equal to p
        that was passed; the result says whether there was one. */
    method Laddo(p: T, compare: Compare<T>) returns (dup: bool, firstdup: Node?<T>, ghost k: nat, ghost added: bool)
      requires Valid()
      modifies Footprint()
      ensures Valid() && fresh(Footprint() - old(Footprint()))
      ensures k == InsertPosition(old(contents), p, compare)
      ensures dup <==> exists j | 0 <= j < k :: compare(p, old(contents)[j]) == 0
      ensures !dup ==> firstdup == null
      ensures dup ==> exists j | 0 <= j < k :: LastEqual(old(contents), p, compare, k, j) && firstdup == old(live)[j]
      ensures added <==> old(NodeAvailable())
      ensures contents == if added then Insert(old(contents), k, p) else old(contents)
      ensures OrderKept(old(contents), contents, p, compare, dup)
    {
      hide NodesOf, Distinct, OrderKept, LastEqual, Available, AfterTaking, NodeAvailable, StockNow, Partition, FreeInv;
      var ln;
      dup, firstdup, ln, k := Search(p, compare);
      ghost var before := Footprint();
      label Searched:
      InsertHere(ln, k, p);
      forall o: object | o in Footprint() && o !in before
        ensures fresh(o)
      {
        assert fresh@Searched(o);
      }
      added := old(NodeAvailable());
      InsertedInOrder(old(contents), contents, p, compare, dup);
    }

    /** The end of laddo and laddu: insert before the node found, or append. */
    method InsertHere(ln: Node?<T>, ghost k: nat, p: T)
      requires Valid() && k <= |live| && ln == At(live, k)
      modifies Footprint()
      ensures Valid() && fresh(Footprint() - old(Footprint()))
      ensures contents == if old(NodeAvailable()) then Insert(old(contents), k, p) else old(contents)
    {
      hide NodesOf, Distinct, Available, AfterTaking, NodeAvailable, StockNow, Partition, FreeInv;
      if ln != null {
        var ignored := InsertLn(ln, k, p);
      } else {
        var ignored := Ladd(p);
        assert Insert(old(contents), k, p) == old(contents) + [p];
      }
    }

    /** The loop of laddo: walk to the first element that p precedes. */
    method Search(p: T, compare: Compare<T>) returns (dup: bool, firstdup: Node?<T>, ln: Node?<T>, ghost k: nat)
      requires LiveInv()
      ensures k == InsertPosition(contents, p, compare) && ln == At(live, k) && k <= |live|
      ensures dup <==> exists j | 0 <= j < k :: compare(p, contents[j]) == 0
      ensures !dup ==> firstdup == null
      ensures dup ==> exists j | 0 <= j < k :: LastEqual(contents, p, compare, k, j) && firstdup == live[j]
    {
      LiveFacts();
      dup, firstdup, k := false, null, 0;
      ghost var last := 0;
      ln := top;
      while ln != null
        invariant 0 <= k <= |live| && ln == At(live, k)
        invariant forall j | 0 <= j < k :: compare(p, contents[j]) >= 0
        invariant !dup ==> firstdup == null && forall j | 0 <= j < k :: compare(p, contents[j]) != 0
        invariant dup ==> 0 <= last < k && firstdup == live[last] && compare(p, contents[last]) == 0
        invariant dup ==> forall i | last < i < k :: compare(p, contents[i]) != 0
        decreases |live| - k
      {
        var cmp := compare(p, ln.data.value);
        if cmp == 0 {
          dup, firstdup, last := true, ln, k;
        }
        if cmp < 0 {
          break;
        }
        ln := ln.next;
        k := k + 1;
      }
      InsertPositionIs(contents, p, compare, k);
      assert dup ==> LastEqual(contents, p, compare, k, last);
    }

    /** laddu: ordered insertion that refuses an element equal to one that p does not precede. */
    method Laddu(p: T, compare: Compare<T>) returns (added: bool, ghost stored: bool)
      requires Valid()
      modifies Footprint()
      ensures Valid() && fresh(Footprint() - old(Footprint()))
      ensures var k := InsertPosition(old(contents), p, compare);
        && (added <==> forall j | 0 <= j < k :: compare(p, old(contents)[j]) != 0)
        && (stored <==> added && old(NodeAvailable()))
        && contents == if stored then Insert(old(contents), k, p) else old(contents)
      ensures StrictOrderKept(old(contents), contents, p, compare, added)
    {
      hide NodesOf, Distinct, StrictOrderKept, Available, AfterTaking, NodeAvailable, StockNow, Partition, FreeInv;
      LiveFacts();
      stored := false;
      var ln := top;
      ghost var k := 0;
      while ln != null
        invariant 0 <= k <= |live| && ln == At(live, k)
        invariant forall j | 0 <= j < k :: compare(p, contents[j]) > 0
        decreases |live| - k
      {
        var cmp := compare(p, ln.data.value);
        if cmp == 0 {
          EqualIsPassed(contents, p, compare, k);
          InsertUnique(contents, contents, p, compare, false);
          return false, false;
        }
        if cmp < 0 {
          break;
        }
        ln := ln.next;
        k := k + 1;
      }
      InsertPositionIs(contents, p, compare, k);
      InsertHere(ln, k, p);
      added, stored := true, old(NodeAvailable());
      InsertUnique(old(contents), contents, p, compare, added);
    }

    /** lsort: bubble sort.  It exchanges data only; no node is relinked. */
    method Lsort(compare: Compare<T>)
      requires Valid() && TotalPreorder(compare)
      modifies this`contents, live
      ensures Valid() && live == old(live) && free == old(free)
      ensures Sorted(contents, compare) && StableRearrangement(old(contents), contents, compare)
    {
      var unsorted := true;
      while unsorted
        invariant Valid() && StableRearrangement(old(contents), contents, compare)
        invariant !unsorted ==> Sorted(contents, compare)
        decreases Inversions(contents, compare), unsorted
      {
        ghost var before := contents;
        unsorted := BubblePass(compare);
        StableTransitive(old(contents), before, contents, compare);
      }
    }

    /** One turn of the outer loop of lsort. */
    method BubblePass(compare: Compare<T>) returns (unsorted: bool)
      requires Valid() && TotalPreorder(compare)
      modifies this`contents, live
      ensures Valid() && StableRearrangement(old(contents), contents, compare)
      ensures unsorted ==> Inversions(contents, compare) < Inversions(old(contents), compare)
      ensures !unsorted ==> contents == old(contents) && Sorted(contents, compare)
    {
      hide Distinct, Elements, StableRearrangement, Inversions, TotalPreorder, Sorted;
      unsorted := false;
      StableReflexive(contents, compare);
      LiveFacts();
      var lt := top;
      ghost var i := 0;
      while lt != null
        invariant Valid() && 0 <= i <= |live| && lt == At(live, i)
        invariant StableRearrangement(old(contents), contents, compare)
        invariant unsorted ==> Inversions(contents, compare) < Inversions(old(contents), compare)
        invariant !unsorted ==> contents == old(contents)
        invariant !unsorted ==> forall j | 0 <= j < i && j + 1 < |contents| :: compare(contents[j], contents[j + 1]) <= 0
        decreases |live| - i
      {
        var swapped;
        lt, swapped := BubbleStep(lt, i, old(contents), compare);
        unsorted := unsorted || swapped;
        i := i + 1;
      }
      if !unsorted {
        NeighboursSorted(contents, compare);
      }
    }

    /** One turn of the inner loop of lsort. */
    method BubbleStep(lt: Node<T>, ghost i: nat, ghost start: seq<T>, compare: Compare<T>) returns (ln: Node?<T>, swapped: bool)
      requires Valid() && TotalPreorder(compare) && i < |live| && lt == live[i]
      requires StableRearrangement(start, contents, compare)
      modifies this`contents, live
      ensures Valid() && ln == At(live, i + 1) && StableRearrangement(start, contents, compare)
      ensures swapped ==> Inversions(contents, compare) < Inversions(old(contents), compare)
      ensures !swapped ==> contents == old(contents)
      ensures !swapped && i + 1 < |contents| ==> compare(contents[i], contents[i + 1]) <= 0
    {
      hide Distinct, Elements, StableRearrangement, Inversions, TotalPreorder;
      LiveFacts();
      swapped := false;
      ln := lt.next;
      if ln != null && compare(lt.data.value, ln.data.value) > 0 {
        SwapRemovesInversion(contents, i, compare);
        SwapIsStable(contents, i, compare);
        StableTransitive(start, contents, SwapNeighbours(contents, i), compare);
        Exchange(lt, ln, i);
        swapped := true;
      }
    }

    /** The data of two neighbouring nodes change places. */
    method Exchange(lt: Node<T>, ln: Node<T>, ghost i: nat)
      requires Valid() && i + 1 < |live| && lt == live[i] && ln == live[i + 1]
      modifies this`contents, lt`data, ln`data
      ensures Valid() && contents == SwapNeighbours(old(contents), i)
    {
      LiveFacts();
      var p := ln.data;
      ln.data := lt.data;
      lt.data := p;
      contents := SwapNeighbours(contents, i);
      forall j | 0 <= j < |live| ensures LinkedAt(live, j) && Holds(j) {
        assert old(LinkedAt(live, j)) && old(Holds(j));
      }
      forall j | 0 <= j < |free| ensures ChainedAt(free, j) {
        assert old(ChainedAt(free, j));
      }
    }
  }

  /** lcreat with memory of its own: a list, unless a pool would hold fewer than five nodes. */
  method Lcreat<T(==, !new)>(elements: nat, grants: nat -> bool) returns (l: List?<T>)
    ensures l == null <==> elements < 5
    ensures l != null ==> fresh(l) && l.Valid() && l.contents == [] && l.Footprint() == {l} && l.StockNow() == Stock(0, 0)
    ensures l != null ==> l.nLnPool == elements && l.grants == grants
  {
    if elements < 5 {
      return null;
    }
    l := new List(elements, grants);
  }

  /** lcat: move the elements of the second list, one by one, to the end of the
      first.  An element for which there is no memory is lost. */
  method Lcat<T(==, !new)>(l1: List<T>, l2: List<T>)
    requires l1.Valid() && l2.Valid() && l1.Footprint() !! l2.Footprint()
    modifies l1.Footprint(), l2.Footprint()
    ensures l1.Valid() && l2.Valid()
    ensures l2.contents == [] && l2.Footprint() == old(l2.Footprint())
    ensures l1.contents == old(l1.contents) + Kept(old(l2.contents), old(l1.StockNow()), l1.nLnPool, l1.grants)
    ensures old(l1.StockNow()).free >= |old(l2.contents)| || (forall k :: l1.grants(k)) ==>
      l1.contents == old(l1.contents) + old(l2.contents)
  {
    hide List.Valid, List.Footprint, NodesOf, List.StockNow, Kept;
    l2.NumIsLength();
    ghost var wanted := l1.contents + Kept(l2.contents, l1.StockNow(), l1.nLnPool, l1.grants);
    while l2.num > 0
      invariant l1.Valid() && l2.Valid() && l1.Footprint() !! l2.Footprint()
      invariant fresh(l1.Footprint() - old(l1.Footprint())) && l2.Footprint() == old(l2.Footprint())
      invariant l2.num == |l2.contents|
      invariant l1.contents + Kept(l2.contents, l1.StockNow(), l1.nLnPool, l1.grants) == wanted
      decreases l2.num
    {
      ghost var before := l1.Footprint();
      KeptFirst(l2.contents, l1.StockNow(), l1.nLnPool, l1.grants);
      label Turn:
      MoveFirst(l1, l2);
      forall o: object | o in l1.Footprint() && o !in old(l1.Footprint()) ensures fresh(o) {
        if o !in before {
          assert fresh@Turn(o);
        }
      }
      l2.NumIsLength();
    }
    KeptNothing<T>(l1.StockNow(), l1.nLnPool, l1.grants);
    if old(l1.StockNow()).free >= |old(l2.contents)| || forall k :: l1.grants(k) {
      AllKept(old(l2.contents), old(l1.StockNow()), l1.nLnPool, l1.grants);
    }
  }

  lemma KeptFirst<T>(s: seq<T>, stock: Stock, poolSize: nat, grants: nat -> bool)
    requires s != []
    ensures Kept(s, stock, poolSize, grants) ==
      (if Available(stock, grants) then [s[0]] else []) + Kept(s[1..], AfterTaking(stock, poolSize, grants), poolSize, grants)
  {
  }

  lemma KeptNothing<T>(stock: Stock, poolSize: nat, grants: nat -> bool)
    ensures Kept<T>([], stock, poolSize, grants) == []
  {
  }

  /** One turn of the loop of lcat. */
  method MoveFirst<T(==, !new)>(l1: List<T>, l2: List<T>)
    requires l1.Valid() && l2.Valid() && l1.Footprint() !! l2.Footprint() && l2.contents != []
    modifies l1.Footprint(), l2.Footprint()
    ensures l1.Valid() && l2.Valid()
    ensures fresh(l1.Footprint() - old(l1.Footprint())) && l2.Footprint() == old(l2.Footprint())
    ensures l1.Footprint() !! l2.Footprint()
    ensures l2.contents == old(l2.contents)[1..]
    ensures l1.contents == old(l1.contents) + if old(l1.NodeAvailable()) then [old(l2.contents)[0]] else []
    ensures l1.StockNow() == AfterTaking(old(l1.StockNow()), l1.nLnPool, l1.grants)
  {
    hide NodesOf, Distinct, Linked, Chained, At, Available, AfterTaking, List.LiveInv, List.FreeInv, List.NodeAvailable;
    l1.ChainsInFootprint();
    l2.ChainsInFootprint();
    var r := l2.LrmvN(1);
    l2.ChainsInFootprint();
    var ignored := l1.Ladd(r.value);
  }
}
