/** MPSCQueue<T> as heap objects: `Node` objects linked through `next`, a
`head` field standing for the atomic `head_`, and ghost state describing them.

`Nodes` lists the chain top first, `Contents` the values it stores and `Repr`
the footprint (the queue and its nodes). Every operation is one atomic step by
one thread; a node handed back by Pop or DequeueAll leaves `Repr`, which is how
`delete` is modelled.
*/
module MpscQueue {

  /** MPSCQueue::Node. Its `next` is set by LinkBefore before the node is
      published and not changed afterwards. */
  class Node<T> {
    const value: T
    var next: Node?<T>

    constructor Init(v: T)
      ensures value == v && next == null
    {
      value := v;
      next := null;
    }

    /** Node::LinkBefore: make this node point at `ptr`. */
    method LinkBefore(ptr: Node?<T>)
      modifies this
      ensures next == ptr
    {
      next := ptr;
    }
  }

  class MPSCQueue<T> {
    var head: Node?<T>
    ghost var Contents: seq<T>
    ghost var Nodes: seq<Node<T>>
    ghost var Repr: set<object>

    /** The chain invariant: `Nodes` is the chain from `head`, finite,
        without repeated nodes and ending in `null`; it stores `Contents`; and
        the footprint is the queue plus exactly those nodes. */
    ghost predicate Valid()
      reads this, Repr
    {
      && this in Repr
      && Repr == {this} + Elements(Nodes)
      && |Nodes| == |Contents|
      && head == (if |Nodes| == 0 then null else Nodes[0])
      && (forall i, j :: 0 <= i < j < |Nodes| ==> Nodes[i] != Nodes[j])
      && (forall i :: 0 <= i < |Nodes| ==> Nodes[i].value == Contents[i])
      && (forall i :: 0 <= i < |Nodes| - 1 ==> Nodes[i].next == Nodes[i + 1])
      && (|Nodes| > 0 ==> Nodes[|Nodes| - 1].next == null)
    }

    /** `head_{nullptr}`. */
    constructor Init()
      ensures Valid() && fresh(Repr)
      ensures Contents == []
    {
      head := null;
      Contents := [];
      Nodes := [];
      Repr := {this};
    }

    /** Push: a fresh node holding `v` becomes the top of the chain. */
    method Push(v: T)
      requires Valid()
      modifies this
      ensures Valid()
      ensures Contents == [v] + old(Contents)
      ensures fresh(head) && Repr == old(Repr) + {head}
    {
      var n := new Node.Init(v);
      n.LinkBefore(head);
      head := n;
      Nodes := [n] + Nodes;
      Contents := [v] + Contents;
      Repr := Repr + {n};
    }

    /** Pop: on an empty chain, `(dflt, false)` with nothing changed, where
        `dflt` is T's value-initialised object; otherwise the top node is
        unlinked, leaves the footprint, and its value comes back with `true`. */
    method Pop(dflt: T) returns (value: T, found: bool)
      requires Valid()
      modifies this
      ensures Valid()
      ensures old(Contents) == [] ==> value == dflt && !found && Contents == [] && Repr == old(Repr)
      ensures old(Contents) != [] ==>
                && value == old(Contents)[0] && found
                && Contents == old(Contents)[1..]
                && old(head) != null && old(head) !in Repr
                && Repr == old(Repr) - {old(head)}
    {
      if head == null {
        return dflt, false;
      }
      var top := head;
      assert [top] + Nodes[1..] == Nodes;
      head := top.next;
      value := top.value;
      found := true;
      Nodes := Nodes[1..];
      Contents := Contents[1..];
      Repr := Repr - {top};
      assert forall i :: 0 <= i < |Nodes| ==> Nodes[i] == old(Nodes)[i + 1];
    }

    /** DequeueAll: `head` is exchanged with `null`, then the detached chain is
        walked top to bottom; `visited` lists the values the callback is called
        with, in order. */
    method DequeueAll() returns (visited: seq<T>)
      requires Valid()
      modifies this
      ensures Valid()
      ensures visited == old(Contents)
      ensures Contents == [] && Repr == {this} && head == null
    {
      var cur := head;
      head := null;
      ghost var rest := Nodes;
      Nodes := [];
      Contents := [];
      Repr := {this};
      visited := [];
      while cur != null
        invariant cur == (if |rest| == 0 then null else rest[0])
        invariant forall i :: 0 <= i < |rest| - 1 ==> rest[i].next == rest[i + 1]
        invariant |rest| > 0 ==> rest[|rest| - 1].next == null
        invariant |visited| + |rest| == |old(Nodes)|
        invariant rest == old(Nodes)[|visited|..]
        invariant visited == old(Contents)[..|visited|]
        decreases |rest|
      {
        visited := visited + [cur.value];
        cur := cur.next;
        rest := rest[1..];
      }
    }

    /** ~MPSCQueue: DequeueAll with a callback that does nothing; afterwards
        no node is left in the footprint. */
    method Dispose()
      requires Valid()
      modifies this
      ensures Valid()
      ensures Contents == [] && Repr == {this}
    {
      var _ := DequeueAll();
    }
  }

  /** The nodes listed in `s`, as a set. */
  ghost function Elements<T>(s: seq<Node<T>>): set<Node<T>>
  {
    set n | n in s
  }

  /** Two queues that share no object keep sharing none, and the untouched
      one stays as it was, whatever operation runs on the other: a new queue
      owns only fresh objects, Push adds a fresh node, and Pop and DequeueAll
      only give nodes up. */
  method PushKeepsQueuesApart<T>(q1: MPSCQueue<T>, q2: MPSCQueue<T>, v: T)
    requires q1.Valid() && q2.Valid() && q1.Repr !! q2.Repr
    modifies q1
    ensures q1.Valid() && q2.Valid() && q1.Repr !! q2.Repr
    ensures q2.Contents == old(q2.Contents)
  {
    q1.Push(v);
  }

  method PopKeepsQueuesApart<T>(q1: MPSCQueue<T>, q2: MPSCQueue<T>, dflt: T)
    requires q1.Valid() && q2.Valid() && q1.Repr !! q2.Repr
    modifies q1
    ensures q1.Valid() && q2.Valid() && q1.Repr !! q2.Repr
    ensures q2.Contents == old(q2.Contents)
  {
    var _, _ := q1.Pop(dflt);
  }

  method DequeueAllKeepsQueuesApart<T>(q1: MPSCQueue<T>, q2: MPSCQueue<T>)
    requires q1.Valid() && q2.Valid() && q1.Repr !! q2.Repr
    modifies q1
    ensures q1.Valid() && q2.Valid() && q1.Repr !! q2.Repr
    ensures q2.Contents == old(q2.Contents)
  {
    var _ := q1.DequeueAll();
  }

  /** A queue constructed while another exists shares no object with it. */
  method NewQueueIsApart<T>(q2: MPSCQueue<T>) returns (q1: MPSCQueue<T>)
    requires q2.Valid()
    ensures q1.Valid() && q1.Contents == [] && q1.Repr !! q2.Repr
  {
    q1 := new MPSCQueue<T>.Init();
  }

  /** Push(1), Push(2), Push(3) on a new queue, then four pops: 3, 2, 1, then
      nothing. */
  method PopScenario() returns (a: int, fa: bool, b: int, fb: bool, c: int, fc: bool, fd: bool)
    ensures a == 3 && b == 2 && c == 1
    ensures fa && fb && fc && !fd
  {
    var q := new MPSCQueue<int>.Init();
    q.Push(1);
    q.Push(2);
    q.Push(3);
    assert q.Contents == [3, 2, 1];
    a, fa := q.Pop(0);
    assert q.Contents == [2, 1];
    b, fb := q.Pop(0);
    assert q.Contents == [1];
    c, fc := q.Pop(0);
    assert q.Contents == [];
    var d;
    d, fd := q.Pop(0);
  }

  /** DequeueAll after Push(1), Push(2), Push(3) visits 3, 2, 1, and a second
      DequeueAll visits nothing. */
  method DrainScenario() returns (first: seq<int>, second: seq<int>)
    ensures first == [3, 2, 1]
    ensures second == []
  {
    var q := new MPSCQueue<int>.Init();
    q.Push(1);
    q.Push(2);
    q.Push(3);
    assert q.Contents == [3, 2, 1];
    first := q.DequeueAll();
    second := q.DequeueAll();
    q.Dispose();
  }
}
