/**
 * The hand-linked queue of src/queue.rs.
 *
 * Heap cells are addressed by `Ptr`; the cells a queue owns are the map `heap`
 * from address to cell, allocation takes the next unused address and freeing a
 * cell removes its address from `heap`. A queue of two or more elements keeps
 * its front value in `ptr` itself and the remaining elements in a chain of cells
 * running from `headNext` to `tail`. The ghost field `nodes` lists the addresses
 * of that chain in order and `Contents` is the abstract sequence of values,
 * front first.
 */
module LinkedQueue {
  import opened QueueSpec

  /** The address of a heap cell: the source's `*mut QNode<T>`. */
  type Ptr = nat

  /** A heap cell: the last cell of a chain, or a cell that links to the next one. */
  datatype QNode<T> =
    | Tail(value: T)
    | Body(value: T, next: Ptr)
  {
    /** A copy of the stored value, whichever kind of cell this is. */
    function Value(): (v: T)
      ensures v == match this case Tail(x) => x case Body(x, _) => x
    {
      value
    }

    /** The successor of a `Body` cell, `None` for a `Tail` cell. */
    function Next(): (r: Option<Ptr>)
      ensures r.None? <==> this.Tail?
      ensures this.Body? ==> r == Some(this.next)
    {
      match this
      case Tail(_) => None
      case Body(_, n) => Some(n)
    }
  }

  /** The shape of the queue: no element, one element held by value, or a chain. */
  datatype QueuePtr<T> =
    | Empty
    | Unit(value: T)
    | Multi(headValue: T, headNext: Ptr, tail: Ptr)

  /**
   * `ns` are the distinct addresses of a chain of cells in `heap` holding `vals`
   * in order: each cell but the last is a `Body` linking to the next one, and the
   * last is a `Tail`.
   */
  ghost predicate IsChain<T>(heap: map<Ptr, QNode<T>>, ns: seq<Ptr>, vals: seq<T>)
  {
    |ns| == |vals| &&
    (forall i, j :: 0 <= i < j < |ns| ==> ns[i] != ns[j]) &&
    (forall i :: 0 <= i < |ns| ==> ns[i] in heap && heap[ns[i]].value == vals[i]) &&
    (forall i :: 0 <= i < |ns| - 1 ==> heap[ns[i]].Body? && heap[ns[i]].next == ns[i + 1]) &&
    (|ns| > 0 ==> heap[ns[|ns| - 1]].Tail?)
  }

  /**
   * The address reached from `p` by following `next` `k` times; `None` when a
   * `Tail` cell or an address outside `heap` is met first.
   */
  function Walk<T>(heap: map<Ptr, QNode<T>>, p: Ptr, k: nat): Option<Ptr>
    decreases k
  {
    if k == 0 then Some(p)
    else if p !in heap then None
    else match heap[p].Next()
      case None => None
      case Some(q) => Walk(heap, q, k - 1)
  }

  /** Following a chain from its `i`-th cell for `k` steps reaches its `(i + k)`-th cell, and no further. */
  lemma {:induction false} WalkChain<T>(heap: map<Ptr, QNode<T>>, ns: seq<Ptr>, vals: seq<T>, i: nat, k: nat)
    requires IsChain(heap, ns, vals) && i < |ns| && i + k <= |ns|
    ensures Walk(heap, ns[i], k) == if i + k < |ns| then Some(ns[i + k]) else None
    decreases k
  {
    if k > 0 {
      if i + 1 < |ns| {
        assert heap[ns[i]].Next() == Some(ns[i + 1]);
        WalkChain(heap, ns, vals, i + 1, k - 1);
      }
    }
  }

  /**
   * Allocating a fresh `Tail` cell at `n` and rewriting the chain's last cell,
   * keeping its value, into a `Body` cell that links to `n` extends the chain by
   * that cell.
   */
  lemma ChainGrows<T>(heap: map<Ptr, QNode<T>>, heap': map<Ptr, QNode<T>>, ns: seq<Ptr>, vals: seq<T>, n: Ptr, v: T)
    requires IsChain(heap, ns, vals) && |ns| > 0 && n !in heap
    requires heap' == heap[n := Tail(v)][ns[|ns| - 1] := Body(heap[ns[|ns| - 1]].value, n)]
    ensures IsChain(heap', ns + [n], vals + [v])
  {
    var ms, ws := ns + [n], vals + [v];
    var last := ns[|ns| - 1];
    forall i | 0 <= i < |ns| - 1
      ensures heap'[ms[i]] == heap[ns[i]]
    {
      assert ns[i] != last;
    }
  }

  /** Freeing the first cell of a chain leaves a chain of the rest. */
  lemma ChainDropsFirst<T>(heap: map<Ptr, QNode<T>>, ns: seq<Ptr>, vals: seq<T>)
    requires IsChain(heap, ns, vals) && |ns| > 0
    ensures IsChain(heap - {ns[0]}, ns[1..], vals[1..])
  {
    forall i | 1 <= i < |ns|
      ensures (heap - {ns[0]})[ns[i]] == heap[ns[i]]
    {
      assert ns[i] != ns[0];
    }
  }

  class Queue<T> {
    var length: nat
    var ptr: QueuePtr<T>
    /** The cells this queue owns, by address. */
    var heap: map<Ptr, QNode<T>>
    /** The allocator: an address no cell has had yet. */
    var nextAddr: Ptr

    ghost var Contents: seq<T>
    ghost var nodes: seq<Ptr>

    /**
     * The object invariant: `length` counts `Contents`; the shape follows the
     * length; in a chain the cells from `headNext` to `tail` are `length - 1`
     * distinct cells holding `Contents[1..]`, and the queue owns no other cell
     * (every owned cell has an address below `nextAddr`).
     */
    ghost predicate Valid()
      reads this
    {
      length == |Contents| &&
      |nodes| == (if length == 0 then 0 else length - 1) &&
      IsChain(heap, nodes, if length == 0 then [] else Contents[1..]) &&
      |heap| == |nodes| && (forall p :: p in heap ==> p < nextAddr) &&
      match ptr
      case Empty => length == 0
      case Unit(v) => length == 1 && Contents[0] == v
      case Multi(hv, hn, tl) =>
        length >= 2 && Contents[0] == hv && hn == nodes[0] && tl == nodes[|nodes| - 1]
    }

    /** `new`: an empty queue owning no cell. */
    constructor ()
      ensures Valid()
      ensures Contents == [] && length == 0 && ptr.Empty? && heap == map[]
    {
      length := 0;
      ptr := Empty;
      heap := map[];
      nextAddr := 0;
      Contents := [];
      nodes := [];
    }

    /** `len`: the number of elements. */
    function Len(): (n: nat)
      reads this
      requires Valid()
      ensures n == |Contents|
    {
      length
    }

    /** `peek`: the front element, without changing anything. */
    function Peek(): (r: Option<T>)
      reads this
      requires Valid()
      ensures r == Front(Contents)
    {
      match ptr
      case Empty => None
      case Unit(v) => Some(v)
      case Multi(hv, _, _) => Some(hv)
    }

    /** The length alone decides the shape. */
    lemma ShapeFollowsLength()
      requires Valid()
      ensures length == 0 <==> ptr.Empty?
      ensures length == 1 <==> ptr.Unit?
      ensures length >= 2 <==> ptr.Multi?
    {
    }

    /**
     * In a chain, following `next` from `headNext` visits exactly `length - 1`
     * cells, which are `nodes` in order, and then stops; the only `Tail` cell
     * among them is `tail`.
     */
    lemma ChainWalk()
      requires Valid() && ptr.Multi?
      ensures forall k :: 0 <= k < length - 1 ==> Walk(heap, ptr.headNext, k) == Some(nodes[k])
      ensures Walk(heap, ptr.headNext, length - 1) == None
      ensures forall i, j :: 0 <= i < j < |nodes| ==> nodes[i] != nodes[j]
      ensures forall i :: 0 <= i < |nodes| ==> (heap[nodes[i]].Tail? <==> nodes[i] == ptr.tail)
    {
      var vals := Contents[1..];
      forall k | 0 <= k < length - 1
        ensures Walk(heap, ptr.headNext, k) == Some(nodes[k])
      {
        WalkChain(heap, nodes, vals, 0, k);
      }
      WalkChain(heap, nodes, vals, 0, length - 1);
    }

    /**
     * `enqueue`: append `v`. From `Empty` no cell is allocated; otherwise one
     * fresh `Tail` cell holding `v` joins the chain, and in a chain the old tail
     * cell is rewritten in place into a `Body` cell, with its value, that links
     * to it. The front value and `headNext` do not change.
     */
    method Enqueue(v: T)
      requires Valid()
      modifies this
      ensures Valid()
      ensures Contents == old(Contents) + [v]
      ensures length == old(length) + 1
      ensures old(length) == 0 ==> ptr.Unit? && heap == old(heap)
      ensures old(length) >= 1 ==>
        ptr.Multi? && ptr.tail !in old(heap) && nodes == old(nodes) + [ptr.tail]
      ensures old(ptr).Unit? ==> heap == old(heap)[ptr.tail := Tail(v)]
      ensures old(ptr).Multi? ==>
        ptr.headValue == old(ptr).headValue && ptr.headNext == old(ptr).headNext &&
        heap == old(heap)[ptr.tail := Tail(v)][old(ptr).tail := Body(old(heap)[old(ptr).tail].value, ptr.tail)]
    {
      length := length + 1;
      match ptr
      case Empty =>
        ptr := Unit(v);
        Contents := [v];
      case Unit(u) =>
        var tail := nextAddr;
        nextAddr := nextAddr + 1;
        heap := heap[tail := Tail(v)];
        ptr := Multi(u, tail, tail);
        nodes := [tail];
        Contents := Contents + [v];
      case Multi(hv, hn, tl) =>
        var newTail := nextAddr;
        nextAddr := nextAddr + 1;
        heap := heap[newTail := Tail(v)];
        // the old tail cell is overwritten in place by a `Body` cell
        var oldTail := Body(heap[tl].Value(), newTail);
        heap := heap[tl := oldTail];
        ptr := Multi(hv, hn, newTail);
        ChainGrows(old(heap), heap, nodes, Contents[1..], newTail, v);
        nodes := nodes + [newTail];
        assert (Contents + [v])[1..] == Contents[1..] + [v];
        Contents := Contents + [v];
    }

    /**
     * `dequeue` as written: `None` and no change on an empty queue; otherwise the
     * front value and one element fewer, the `headNext` cell being freed when
     * there was a chain. From two elements the single value kept is the OLD
     * FRONT (see `Dequeued`); from three or more the chain loses its first cell,
     * whose value becomes the front, and `tail` stays.
     */
    method Dequeue() returns (r: Option<T>)
      requires Valid()
      modifies this
      ensures Valid()
      ensures r == Front(old(Contents))
      ensures Contents == Dequeued(old(Contents))
      ensures length == if old(length) == 0 then 0 else old(length) - 1
      ensures old(length) == 0 ==> unchanged(this)
      ensures old(length) <= 1 ==> heap == old(heap)
      ensures old(length) >= 2 ==> heap == old(heap) - {old(nodes)[0]}
      ensures old(length) == 2 ==> ptr.Unit? && ptr.value == old(Contents)[0]
      ensures old(length) >= 3 ==>
        ptr.Multi? && ptr.headValue == old(heap)[old(nodes)[0]].value &&
        ptr.headNext == old(nodes)[1] && ptr.tail == old(ptr).tail && nodes == old(nodes)[1..]
    {
      match ptr
      case Empty =>
        r := None;
      case Unit(v) =>
        length := length - 1;
        r := Some(v);
        ptr := Empty;
        Contents := [];
      case Multi(hv, hn, tl) =>
        length := length - 1;
        var clonedHead := hv;
        var newHead := hn;
        if length == 1 {
          // the `headNext` cell is freed; the single value kept is the old front value
          heap := heap - {newHead};
          ptr := Unit(hv);
          nodes := [];
          Contents := [hv];
        } else if length == 0 {
          // a chain always holds two or more elements
          assert false;
        } else {
          // the `headNext` cell is moved out of its box and the box freed
          var nextHead := heap[newHead];
          heap := heap - {newHead};
          assert nextHead == Body(Contents[1], nodes[1]);
          var succ := nextHead.Next();
          if succ.None? {
            // the early `None` of the `?` operator: a chain cell before the tail is a `Body`
            assert false;
            return None;
          }
          ptr := Multi(nextHead.Value(), succ.value, tl);
          ChainDropsFirst(old(heap), nodes, Contents[1..]);
          nodes := nodes[1..];
          Contents := Contents[1..];
        }
        r := Some(clonedHead);
    }

    /**
     * `dequeue` as evidently intended: on the two-to-one step the value read from
     * the freed `headNext` cell becomes the single value, so every non-empty
     * dequeue removes exactly the front.
     */
    method DequeueIntended() returns (r: Option<T>)
      requires Valid()
      modifies this
      ensures Valid()
      ensures r == Front(old(Contents))
      ensures Contents == DequeuedIntended(old(Contents))
      ensures length == if old(length) == 0 then 0 else old(length) - 1
      ensures old(length) == 0 ==> unchanged(this)
      ensures old(length) <= 1 ==> heap == old(heap)
      ensures old(length) >= 2 ==> heap == old(heap) - {old(nodes)[0]}
    {
      match ptr
      case Empty =>
        r := None;
      case Unit(v) =>
        length := length - 1;
        r := Some(v);
        ptr := Empty;
        Contents := [];
      case Multi(hv, hn, tl) =>
        length := length - 1;
        var clonedHead := hv;
        var newHead := hn;
        var nextHead := heap[newHead];
        heap := heap - {newHead};
        if length == 1 {
          ptr := Unit(nextHead.Value());
          nodes := [];
          Contents := Contents[1..];
        } else {
          assert nextHead == Body(Contents[1], nodes[1]);
          var succ := nextHead.Next();
          if succ.None? {
            assert false;
            return None;
          }
          ptr := Multi(nextHead.Value(), succ.value, tl);
          ChainDropsFirst(old(heap), nodes, Contents[1..]);
          nodes := nodes[1..];
          Contents := Contents[1..];
        }
        r := Some(clonedHead);
    }

    /**
     * `Drop::drop`: dequeue until `None`. The loop stops after exactly `length`
     * successful dequeues, handing out `Drain(Contents)`, and ends with an empty
     * queue that owns no cell: every cell was freed exactly once.
     */
    method Drop() returns (ghost drained: seq<T>)
      requires Valid()
      modifies this
      ensures Valid() && ptr.Empty? && length == 0 && Contents == [] && heap == map[]
      ensures drained == Drain(old(Contents)) && |drained| == old(length)
    {
      drained := [];
      var more := true;
      while more
        invariant Valid()
        invariant drained + Drain(Contents) == Drain(old(Contents))
        invariant !more ==> Contents == []
        decreases length + (if more then 1 else 0)
      {
        ghost var before := Contents;
        var r := Dequeue();
        if r.Some? {
          DrainStep(drained, before);
          drained := drained + [r.value];
        }
        more := r.Some?;
      }
      ShapeFollowsLength();
      assert forall p :: p !in heap;
    }

    /**
     * The drop loop over the corrected `dequeue`: it hands out the contents
     * exactly, in first-in-first-out order, and frees every cell.
     */
    method DropIntended() returns (ghost drained: seq<T>)
      requires Valid()
      modifies this
      ensures Valid() && ptr.Empty? && length == 0 && Contents == [] && heap == map[]
      ensures drained == old(Contents)
      ensures drained == DrainIntended(old(Contents))
    {
      drained := [];
      var more := true;
      while more
        invariant Valid()
        invariant drained + Contents == old(Contents)
        invariant !more ==> Contents == []
        decreases length + (if more then 1 else 0)
      {
        ghost var before := Contents;
        var r := DequeueIntended();
        if r.Some? {
          DequeuedIntendedStep(drained, before);
          drained := drained + [r.value];
        }
        more := r.Some?;
      }
      ShapeFollowsLength();
      assert forall p :: p !in heap;
      DrainIntendedIsFifo(old(Contents));
    }
  }

  /** A new queue has length 0, and both `peek` and `dequeue` give `None`. */
  method NewQueueIsEmpty() returns (n: nat, front: Option<int>, out: Option<int>)
    ensures n == 0 && front == None && out == None
  {
    var q := new Queue<int>();
    n := q.Len();
    front := q.Peek();
    out := q.Dequeue();
  }

  /** The six enqueues of src/main.rs on a new queue. */
  method DemoQueue() returns (q: Queue<int>)
    ensures fresh(q) && q.Valid() && q.Contents == [8, 16, 32, 64, 128, 256]
  {
    q := new Queue<int>();
    q.Enqueue(8);
    q.Enqueue(16);
    q.Enqueue(32);
    assert q.Contents == [8, 16, 32];
    q.Enqueue(64);
    q.Enqueue(128);
    q.Enqueue(256);
  }

  /**
   * The whole run of src/main.rs: six enqueues, `peek` and `len`, then three
   * dequeues with `peek` or `len` after each, and finally the dequeues of
   * `Drop::drop` when the queue goes out of scope at the end of `main`. The fifth
   * successful dequeue hands out 128 a second time.
   */
  method DemoTrace() returns (peeked: seq<Option<int>>, lens: seq<nat>, out: seq<Option<int>>)
    ensures peeked == [Some(8), Some(16)]
    ensures lens == [6, 5, 4, 3]
    ensures out == [Some(8), Some(16), Some(32), Some(64), Some(128), Some(128), None]
  {
    var q := DemoQueue();
    var b1 := q.Peek();
    var n1 := q.Len();
    var x1 := q.Dequeue();
    var b2 := q.Peek();
    var n2 := q.Len();
    var x2 := q.Dequeue();
    var n3 := q.Len();
    var x3 := q.Dequeue();
    var n4 := q.Len();
    assert q.Contents == [64, 128, 256];
    // `a` goes out of scope: `Drop::drop` dequeues until `None`
    var x4 := q.Dequeue();
    var x5 := q.Dequeue();
    assert q.Contents == [128];
    var x6 := q.Dequeue();
    var x7 := q.Dequeue();
    peeked, lens := [b1, b2], [n1, n2, n3, n4];
    out := [x1, x2, x3, x4, x5, x6, x7];
  }

  /** One element in and out: `len` and `peek` see it, and the queue ends empty, owning no cell. */
  method SingleElementTrace<T>(v: T) returns (n: nat, front: Option<T>, out: Option<T>, left: nat, cells: nat)
    ensures n == 1 && front == Some(v) && out == Some(v) && left == 0 && cells == 0
  {
    var q := new Queue<T>();
    q.Enqueue(v);
    n, front := q.Len(), q.Peek();
    out := q.Dequeue();
    left, cells := q.Len(), |q.heap|;
  }
}
