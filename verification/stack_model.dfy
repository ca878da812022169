/** MPSCQueue<T> as a value: its heap of nodes, the `head_` pointer and the
allocator, with each operation taken as one atomic step by one thread.

Every node of the heap belongs to the chain from `head` (the heap is the
queue's footprint), so freeing a node is removing it from the heap, and a
queue whose heap is empty has leaked nothing. Addresses come from a bump
allocator and are never handed out twice.
*/
module StackModel {
  import opened HeapChain

  /** The `std::pair<T, bool>` that Pop returns. */
  datatype PopResult<T> = PopResult(value: T, found: bool)

  datatype Queue<T> = Queue(heap: Heap<T>, head: Ptr, alloc: nat)

  /** The chain invariant: following `next` from `head` is finite, acyclic and
      null-terminated, every allocated node lies on that chain, and every
      address in use is below the allocator's next address. */
  predicate Valid<T>(q: Queue<T>)
  {
    && Walk(q.heap, q.head).Some?
    && (forall a :: a in q.heap ==> a in Walk(q.heap, q.head).value)
    && (forall a :: a in q.heap ==> a < q.alloc)
  }

  /** The addresses of the nodes on the chain, top first. */
  function Chain<T>(q: Queue<T>): seq<nat>
    requires Valid(q)
  {
    Walk(q.heap, q.head).value
  }

  /** The stored values, most recently pushed first. */
  function Contents<T>(q: Queue<T>): seq<T>
    requires Valid(q)
  {
    WalkValues(q.heap, q.head)
  }

  /** A freshly constructed queue: `head_{nullptr}` and no nodes. */
  function Empty<T>(): (r: Queue<T>)
    ensures Valid(r) && Contents(r) == [] && |r.heap| == 0
  {
    Queue(map[], Null, 0)
  }

  /** Push: allocate a node holding `v`, link it before the current head and
      publish it as the new head. */
  function Push<T>(q: Queue<T>, v: T): (r: Queue<T>)
    requires Valid(q)
    ensures Valid(r)
    ensures Contents(r) == [v] + Contents(q)
    ensures q.alloc !in q.heap && r.head == Ref(q.alloc)
    ensures r.heap.Keys == q.heap.Keys + {q.alloc}
    ensures Chain(r) == [q.alloc] + Chain(q)
  {
    var n := q.alloc;
    LinkBeforeWalk(q.heap, q.head, n, v);
    Queue(q.heap[n := Node(v, q.head)], Ref(n), n + 1)
  }

  /** Pop: on an empty chain, report nothing found with the value-initialised
      `dflt` and leave the queue as it is; otherwise unlink the top node, free
      it and return its value. */
  function Pop<T>(q: Queue<T>, dflt: T): (r: (PopResult<T>, Queue<T>))
    requires Valid(q)
    ensures Valid(r.1)
    ensures Contents(q) == [] ==> r == (PopResult(dflt, false), q)
    ensures Contents(q) != [] ==>
              && r.0 == PopResult(Contents(q)[0], true)
              && Contents(r.1) == Contents(q)[1..]
              && Chain(r.1) == Chain(q)[1..]
              && r.1.heap.Keys == q.heap.Keys - {Chain(q)[0]}
  {
    if q.head == Null then
      (PopResult(dflt, false), q)
    else
      var top := q.head.addr;
      var rest := q.heap - {top};
      assert rest.Keys == q.heap.Keys - {top};
      (PopResult(q.heap[top].value, true), Queue(rest, q.heap[top].next, q.alloc))
  }

  /** DequeueAll: exchange `head` with `nullptr`, then walk the detached chain
      top to bottom, handing each value to the callback and freeing its node.
      The callback is modelled by the sequence of values it is called with, and
      `freed` counts the nodes released, one per step of the walk. */
  method DequeueAll<T>(q: Queue<T>) returns (visited: seq<T>, freed: nat, r: Queue<T>)
    requires Valid(q)
    ensures visited == Contents(q)
    ensures freed == |visited| == |q.heap|
    ensures Valid(r) && Contents(r) == []
    ensures |r.heap| == 0 && r.alloc == q.alloc
  {
    var h := q.heap;
    // the exchange: the chain is detached and `head` becomes null
    var cur := q.head;
    visited := [];
    freed := 0;
    while cur != Null
      invariant Walk(h, cur).Some?
      invariant forall a :: a in h ==> a in Walk(h, cur).value
      invariant visited + WalkValues(h, cur) == Contents(q)
      invariant freed == |visited| && freed + |h| == |q.heap|
      decreases |h|
    {
      var top := cur.addr;
      // hand the value to the callback, step to the next node, free this one
      visited := visited + [h[top].value];
      cur := h[top].next;
      assert (h - {top}).Keys == h.Keys - {top};
      h := h - {top};
      freed := freed + 1;
    }
    assert h.Keys == {};
    r := Queue(h, Null, q.alloc);
  }

  /** ~MPSCQueue: DequeueAll with a callback that does nothing. Every node left
      in the queue is freed exactly once: `freed` is the number of nodes released
      and it equals the number of values the queue held. */
  method Destroy<T>(q: Queue<T>) returns (freed: nat, r: Queue<T>)
    requires Valid(q)
    ensures Valid(r) && Contents(r) == [] && |r.heap| == 0
    ensures freed == |Contents(q)| == |q.heap|
  {
    var _, n, drained := DequeueAll(q);
    freed := n;
    r := drained;
  }

  /** The heap holds exactly the nodes of the chain, one per stored value:
      nothing is leaked and nothing is shared. */
  lemma ChainCoversHeap<T>(q: Queue<T>)
    requires Valid(q)
    ensures q.heap.Keys == set i | 0 <= i < |Chain(q)| :: Chain(q)[i]
    ensures |q.heap| == |Chain(q)| == |Contents(q)|
  {
    var addrs := Chain(q);
    WalkValuesAt(q.heap, q.head, addrs);
    WalkGivesChain(q.heap, q.head, addrs);
    DistinctCard(addrs);
    assert q.heap.Keys == set i | 0 <= i < |addrs| :: addrs[i];
  }

  /** A sequence without repetitions has as many distinct elements as entries. */
  lemma {:induction false} DistinctCard(s: seq<nat>)
    requires forall i, j :: 0 <= i < j < |s| ==> s[i] != s[j]
    ensures |set i | 0 <= i < |s| :: s[i]| == |s|
  {
    if |s| > 0 {
      var tail := s[1..];
      DistinctCard(tail);
      var st := set i | 0 <= i < |tail| :: tail[i];
      assert (set i | 0 <= i < |s| :: s[i]) == {s[0]} + st;
      assert s[0] !in st;
    }
  }

  /** A push followed by a pop returns the pushed value and gives back the
      queue as it was, except that the allocator has moved on (LIFO pairing). */
  lemma PushThenPop<T>(q: Queue<T>, v: T, dflt: T)
    requires Valid(q)
    ensures Pop(Push(q, v), dflt) == (PopResult(v, true), q.(alloc := q.alloc + 1))
    ensures Contents(Pop(Push(q, v), dflt).1) == Contents(q)
  {
    assert q.heap[q.alloc := Node(v, q.head)] - {q.alloc} == q.heap;
  }

  /** Reversal of a sequence, defined independently of the queue. */
  function Reverse<T>(s: seq<T>): seq<T>
  {
    if |s| == 0 then [] else Reverse(s[1..]) + [s[0]]
  }

  /** Pushing `xs` one after the other, first element first, puts them on top
      in reverse order. */
  function PushAll<T>(q: Queue<T>, xs: seq<T>): (r: Queue<T>)
    requires Valid(q)
    ensures Valid(r)
    ensures Contents(r) == Reverse(xs) + Contents(q)
    decreases |xs|
  {
    if |xs| == 0 then q else PushAll(Push(q, xs[0]), xs[1..])
  }

  /** On an empty queue, Push(1), Push(2), Push(3) and then four pops give
      3, 2 and 1, and the fourth pop finds nothing. */
  lemma PushThreePopFour(e: Queue<int>)
    requires Valid(e) && Contents(e) == []
    ensures var q3 := Push(Push(Push(e, 1), 2), 3);
            var (a, q2) := Pop(q3, 0);
            var (b, q1) := Pop(q2, 0);
            var (c, q0) := Pop(q1, 0);
            && a == PopResult(3, true) && b == PopResult(2, true) && c == PopResult(1, true)
            && Pop(q0, 0).0 == PopResult(0, false)
  {
    var q3 := Push(Push(Push(e, 1), 2), 3);
    assert Contents(q3) == [3, 2, 1];
    var q2 := Pop(q3, 0).1;
    assert Contents(q2) == [2, 1];
    var q1 := Pop(q2, 0).1;
    assert Contents(q1) == [1];
  }

  /** Two DequeueAll calls in a row: the first visits everything, most recently
      pushed first; the second visits nothing. */
  method DequeueAllTwice<T>(q: Queue<T>) returns (first: seq<T>, second: seq<T>, r: Queue<T>)
    requires Valid(q)
    ensures first == Contents(q) && second == []
    ensures Valid(r) && Contents(r) == []
  {
    var q1, n1, n2;
    first, n1, q1 := DequeueAll(q);
    second, n2, r := DequeueAll(q1);
  }
}
