/** The node chain of MPSCQueue, with the heap written as a value.

A pointer is an address into a finite map from addresses to nodes; `Null`
stands for `nullptr`. Following `next` from a pointer is done by `Walk`, which
drops every node it visits from the heap before going on: a walk that comes
back to a node it has already seen finds a dangling address and fails, so a
successful walk is exactly a finite, acyclic, null-terminated chain. The
declarative reading of the same shape is `IsChain`, and `WalkIsChain` proves
the two agree in both directions.
*/
module HeapChain {

  /** A node address, or `nullptr`. */
  datatype Ptr = Null | Ref(addr: nat)

  /** MPSCQueue::Node: the stored value and the link to the node below it. */
  datatype Node<T> = Node(value: T, next: Ptr)

  /** The allocated nodes, by address. */
  type Heap<T> = map<nat, Node<T>>

  datatype Option<T> = None | Some(value: T)

  /** The addresses met by following `next` from `p`, top first; `None` when the
      walk reaches an address that is not allocated or that it has already visited. */
  function Walk<T>(h: Heap<T>, p: Ptr): Option<seq<nat>>
    decreases |h|
  {
    match p
    case Null => Some([])
    case Ref(a) =>
      if a !in h then None
      else
        assert |h - {a}| < |h| by { assert (h - {a}).Keys == h.Keys - {a}; }
        match Walk(h - {a}, h[a].next)
        case None => None
        case Some(rest) => Some([a] + rest)
  }

  /** The values met by the same walk, top first. */
  function WalkValues<T>(h: Heap<T>, p: Ptr): seq<T>
    requires Walk(h, p).Some?
    decreases |h|
  {
    match p
    case Null => []
    case Ref(a) =>
      assert |h - {a}| < |h| by { assert (h - {a}).Keys == h.Keys - {a}; }
      [h[a].value] + WalkValues(h - {a}, h[a].next)
  }

  /** `addrs` lists the nodes of a well-formed chain from `p`: every address is
      allocated and appears once, each node links to the next one listed, and
      the last node links to `nullptr`. */
  predicate IsChain<T>(h: Heap<T>, p: Ptr, addrs: seq<nat>)
  {
    && (forall i :: 0 <= i < |addrs| ==> addrs[i] in h)
    && (forall i, j :: 0 <= i < j < |addrs| ==> addrs[i] != addrs[j])
    && (p == if |addrs| == 0 then Null else Ref(addrs[0]))
    && (forall i :: 0 <= i < |addrs| - 1 ==> h[addrs[i]].next == Ref(addrs[i + 1]))
    && (|addrs| > 0 ==> h[addrs[|addrs| - 1]].next == Null)
  }

  /** A walk succeeds with `addrs` exactly when `addrs` is a well-formed chain from `p`. */
  lemma {:induction false} WalkIsChain<T>(h: Heap<T>, p: Ptr, addrs: seq<nat>)
    ensures Walk(h, p) == Some(addrs) <==> IsChain(h, p, addrs)
    decreases |addrs|
  {
    if Walk(h, p) == Some(addrs) {
      WalkGivesChain(h, p, addrs);
    }
    if IsChain(h, p, addrs) {
      ChainGivesWalk(h, p, addrs);
    }
  }

  lemma {:induction false} WalkGivesChain<T>(h: Heap<T>, p: Ptr, addrs: seq<nat>)
    requires Walk(h, p) == Some(addrs)
    ensures IsChain(h, p, addrs)
    decreases |h|
  {
    match p
    case Null =>
    case Ref(a) =>
      assert (h - {a}).Keys == h.Keys - {a};
      var rest := addrs[1..];
      assert Walk(h - {a}, h[a].next) == Some(rest);
      WalkGivesChain(h - {a}, h[a].next, rest);
      forall i | 0 <= i < |rest|
        ensures rest[i] != a && rest[i] in h
      {
        assert rest[i] in (h - {a});
      }
  }

  lemma {:induction false} ChainGivesWalk<T>(h: Heap<T>, p: Ptr, addrs: seq<nat>)
    requires IsChain(h, p, addrs)
    ensures Walk(h, p) == Some(addrs)
    decreases |addrs|
  {
    if |addrs| > 0 {
      var a := addrs[0];
      var rest := addrs[1..];
      var h' := h - {a};
      forall i | 0 <= i < |rest|
        ensures rest[i] in h'
      {
        assert addrs[i + 1] != addrs[0];
      }
      assert h[a].next == if |rest| == 0 then Null else Ref(rest[0]);
      assert IsChain(h', h[a].next, rest) by {
        forall i | 0 <= i < |rest| - 1
          ensures h'[rest[i]].next == Ref(rest[i + 1])
        {
          assert h[addrs[i + 1]].next == Ref(addrs[i + 2]);
        }
      }
      ChainGivesWalk(h', h[a].next, rest);
      assert addrs == [a] + rest;
    }
  }

  /** The values of a walk are the values stored at its addresses, in the same order. */
  lemma {:induction false} WalkValuesAt<T>(h: Heap<T>, p: Ptr, addrs: seq<nat>)
    requires Walk(h, p) == Some(addrs)
    ensures forall i :: 0 <= i < |addrs| ==> addrs[i] in h
    ensures |WalkValues(h, p)| == |addrs|
    ensures forall i :: 0 <= i < |addrs| ==> WalkValues(h, p)[i] == h[addrs[i]].value
    decreases |h|
  {
    WalkGivesChain(h, p, addrs);
    match p
    case Null =>
    case Ref(a) =>
      assert (h - {a}).Keys == h.Keys - {a};
      var rest := addrs[1..];
      WalkValuesAt(h - {a}, h[a].next, rest);
  }

  /** Putting a fresh node in front of a chain (Node::LinkBefore then publishing it
      as the new head) gives a chain one longer, with the new node on top. */
  lemma LinkBeforeWalk<T>(h: Heap<T>, p: Ptr, n: nat, v: T)
    requires n !in h
    requires Walk(h, p).Some?
    ensures Walk(h[n := Node(v, p)], Ref(n)) == Some([n] + Walk(h, p).value)
    ensures WalkValues(h[n := Node(v, p)], Ref(n)) == [v] + WalkValues(h, p)
  {
    assert h[n := Node(v, p)] - {n} == h;
  }
}
