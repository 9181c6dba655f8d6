/** The FIFO of outstanding USB requests of ft245r.c.  Served nodes are not
    freed: they move to a pool from which later requests are taken. */
module Ft245rQueue {
  import opened Sequences

  datatype Entry = Entry(addr: int, bytes: int, n: int)

  class Request {
    var addr: int
    var bytes: int
    var n: int
    var next: Request?

    constructor ()
      ensures next == null
    {
      addr, bytes, n, next := 0, 0, 0, null;
    }
  }

  ghost predicate Chain(first: Request?, nodes: seq<Request>)
    reads nodes
  {
    && (nodes == [] ==> first == null)
    && (nodes != [] ==> first == nodes[0] && nodes[|nodes| - 1].next == null)
    && forall i {:trigger nodes[i].next} | 0 <= i < |nodes| - 1 :: nodes[i].next == nodes[i + 1]
  }

  function SumBytes(entries: seq<Entry>): int {
    if entries == [] then 0 else entries[0].bytes + SumBytes(entries[1..])
  }

  lemma {:induction false} SumBytesAppend(a: seq<Entry>, b: seq<Entry>)
    ensures SumBytes(a + b) == SumBytes(a) + SumBytes(b)
  {
    if a == [] {
      assert a + b == b;
    } else {
      SumBytesAppend(a[1..], b);
      assert (a + b)[1..] == a[1..] + b;
    }
  }

  /** req_head, req_tail and req_pool. */
  class RequestQueue {
    var reqHead: Request?
    var reqTail: Request?
    var reqPool: Request?
    ghost var queue: seq<Request>
    ghost var pool: seq<Request>
    ghost var entries: seq<Entry>

    /** Every node ever allocated, in the queue or in the pool. */
    ghost function Nodes(): set<Request>
      reads this
    {
      (set x | x in queue) + (set x | x in pool)
    }

    ghost predicate Holds(i: nat)
      reads this, queue
      requires i < |queue| && i < |entries|
    {
      Entry(queue[i].addr, queue[i].bytes, queue[i].n) == entries[i]
    }

    ghost predicate Valid()
      reads this, queue, pool
    {
      && Chain(reqHead, queue) && Chain(reqPool, pool)
      && reqTail == (if queue == [] then null else queue[|queue| - 1])
      && Distinct(queue) && Distinct(pool)
      && (forall x | x in queue :: x !in pool)
      && |entries| == |queue|
      && forall i | 0 <= i < |queue| :: Holds(i)
    }

    constructor ()
      ensures Valid() && entries == [] && queue == [] && pool == []
    {
      reqHead, reqTail, reqPool := null, null, null;
      queue, pool, entries := [], [], [];
    }

    lemma HeadTells()
      requires Valid()
      ensures reqHead == null <==> queue == []
      ensures |queue| == |entries|
    {
    }

    /** The first half of put_request: a pooled node if there is one, else a new one. */
    method Allocate() returns (p: Request)
      requires Valid()
      modifies this`reqPool, this`pool
      ensures Valid() && p !in queue && p !in pool
      ensures old(pool) != [] ==> p == old(pool)[0] && pool == old(pool)[1..]
      ensures old(pool) == [] ==> fresh(p) && pool == []
    {
      if reqPool != null {
        p := reqPool;
        reqPool := p.next;
        pool := pool[1..];
      } else {
        p := new Request();
      }
      forall i | 0 <= i < |queue| ensures Holds(i) {
        assert old(Holds(i));
      }
    }

    /** The second half: the node is filled in and linked at the tail. */
    method Append(p: Request, addr: int, bytes: int, n: int)
      requires Valid() && p !in queue && p !in pool
      modifies this`reqHead, this`reqTail, this`queue, this`entries, p, queue
      ensures Valid()
      ensures queue == old(queue) + [p]
      ensures entries == old(entries) + [Entry(addr, bytes, n)]
    {
      assert forall i | 0 <= i < |pool| :: pool[i] in pool;
      p.addr, p.bytes, p.n, p.next := addr, bytes, n, null;
      if reqTail != null {
        reqTail.next := p;
        reqTail := p;
      } else {
        reqHead := p;
        reqTail := p;
      }
      ghost var queue0 := queue;
      queue := queue + [p];
      entries := entries + [Entry(addr, bytes, n)];
      forall i | 0 <= i < |queue| ensures Holds(i) {
        if i < |queue0| {
          assert old(Holds(i));
        }
      }
    }

    /** put_request. */
    method Put(addr: int, bytes: int, n: int)
      requires Valid()
      modifies this, Nodes()
      ensures Valid() && fresh(Nodes() - old(Nodes()))
      ensures entries == old(entries) + [Entry(addr, bytes, n)]
      ensures old(pool) != [] ==> queue == old(queue) + [old(pool)[0]] && pool == old(pool)[1..]
      ensures old(pool) == [] ==> pool == [] && |queue| == |old(queue)| + 1 && queue[..|old(queue)|] == old(queue)
    {
      var p := Allocate();
      Append(p, addr, bytes, n);
    }

    /** The dequeuing part of do_request: the head node is read, then moved to the pool. */
    method Take() returns (e: Entry)
      requires Valid() && queue != []
      modifies this, Nodes()
      ensures Valid() && Nodes() == old(Nodes())
      ensures e == old(entries)[0] && entries == old(entries)[1..]
      ensures queue == old(queue)[1..] && pool == [old(queue)[0]] + old(pool)
    {
      assert Holds(0);
      var p := Unlink();
      e := Entry(p.addr, p.bytes, p.n);
      Recycle(p);
      assert Nodes() == old(Nodes());
    }

    method Unlink() returns (p: Request)
      requires Valid() && queue != []
      modifies this`reqHead, this`reqTail, this`queue, this`entries
      ensures Valid() && p == old(queue)[0] && p !in queue && p !in pool
      ensures queue == old(queue)[1..] && entries == old(entries)[1..]
    {
      p := reqHead;
      reqHead := p.next;
      if reqHead == null {
        reqTail := null;
      }
      queue := queue[1..];
      entries := entries[1..];
      forall i | 0 <= i < |queue| ensures Holds(i) {
        assert old(Holds(i + 1));
      }
    }

    method Recycle(p: Request)
      requires Valid() && p !in queue && p !in pool
      modifies this`reqPool, this`pool, p
      ensures Valid() && pool == [p] + old(pool)
    {
      p.addr, p.bytes, p.n := 0, 0, 0;
      p.next := reqPool;
      reqPool := p;
      pool := [p] + pool;
      forall i | 0 <= i < |queue| ensures Holds(i) {
        assert old(Holds(i));
      }
    }
  }
}
