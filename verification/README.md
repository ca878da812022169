# MPSCQueue: a sequential model of the intrusive lock-free stack

`MPSCQueue<T>` (mpsc_queue.h) is an intrusive, singly linked LIFO stack. Any
number of producer threads may push onto it, and one consumer at a time may
take from it. Its nodes live on the heap. An atomic `head_` points at the
most recently pushed node, and each node points at the one pushed before it.
The operations are:

- `Push` allocates a node and splices it on top.
- `Pop` takes the top value, or reports that the stack is empty.
- `DequeueAll` detaches the whole chain and hands each value to a callback,
  top to bottom.
- The destructor drains whatever is left.

The model treats every operation as one atomic step taken by one thread. It
has two layers.

- **`HeapChain` and `StackModel`** write the heap as a value. A pointer is an
  address into a map from addresses to `Node(value, next)` records. `Walk`
  follows `next` and deletes each node it passes. Because of that deletion, a
  walk that meets a cycle finds a dangling address and fails. So a successful
  walk is exactly a finite, acyclic, null-terminated chain, and `WalkIsChain`
  proves that this agrees with the declarative `IsChain`. A `Queue` holds the
  heap, `head` and a bump allocator. `Valid` states the chain invariant:
  - the chain from `head` is well formed;
  - every allocated node lies on that chain, so the heap is the queue's
    footprint and a freed node is one removed from the map;
  - every address in use lies below the allocator.

  `Contents` gives the stored values, most recently pushed first. `Push`,
  `Pop`, `DequeueAll` and `Destroy` are stated against `Contents` and the
  heap's key set. These pure members are where the proofs live: the drain
  loop's invariants and the chain lemmas.
- **`MpscQueue`** is the same structure written with objects. `Node` objects
  are linked through `next`, and the queue has a `head` field, ghost
  `Contents`, a ghost `Nodes` list and a ghost footprint `Repr`. `Valid()`
  states the same invariant. A node that `Pop` or `DequeueAll` detaches
  leaves `Repr`; this is how `delete` is modelled.

The user's callback in `DequeueAll` is modelled by the sequence of values it
would be called with (`visited`). The value-initialised `T{}` that `Pop`
returns on an empty stack is passed in as `dflt`, because a Dafny type
parameter has no default value.

`Pop` reads `head_` once for the emptiness check, and reads it again, with its
`next`, to compute the argument of the exchange (mpsc_queue.h:22-26). Taken
one thread at a time this is the same as one atomic step, and the model
follows the code. What the gap inside line 26 means for concurrent pushes is
noted under "Left out".

The two layers are written independently. The object model is not proved to
refine the value model; each states the same properties of its own
representation (`Valid`, `Contents`, the four operations and the 3, 2, 1
scenario appear once in each).

## Model

| member | source | states |
|---|---|---|
| HeapChain.WalkIsChain | mpsc_queue.h:49-59 | following `next` from a pointer succeeds with a given address list exactly when that list is a chain of allocated nodes that has no repeats, links each node to the next and ends in `nullptr` (both directions) |
| HeapChain.WalkGivesChain | mpsc_queue.h:49-59 | a successful walk from `head_` yields a finite, acyclic, null-terminated chain of allocated nodes |
| HeapChain.ChainGivesWalk | mpsc_queue.h:49-59 | every finite, acyclic, null-terminated chain of allocated nodes is what the walk from its first node returns |
| HeapChain.WalkValuesAt | mpsc_queue.h:36-41 | the values the walk meets are the values stored at the chain's addresses, in chain order, one per node |
| HeapChain.LinkBeforeWalk | mpsc_queue.h:11-13 | linking a fresh node before the current head and publishing it yields a chain one node longer, with the new node and its value on top and the old chain unchanged below it |
| StackModel.Empty | mpsc_queue.h:59 | a new queue (`head_{nullptr}`) satisfies the invariant, holds no values and owns no nodes |
| StackModel.Push | mpsc_queue.h:10-17 | Push keeps the invariant, puts `v` in front of the old contents, and adds exactly one node to the heap; that node was not allocated before and becomes the head |
| StackModel.Pop | mpsc_queue.h:21-30 | on an empty stack Pop returns `(dflt, false)` and leaves the queue unchanged; otherwise it returns the top value with `true`, leaves the remaining contents, and frees exactly the top node, which is no longer on the chain |
| StackModel.DequeueAll | mpsc_queue.h:34-42 | the callback sees every stored value exactly once, most recently pushed first; one node is freed per value visited, as many as the heap held; afterwards the stack is empty and the heap holds no node |
| StackModel.Destroy | mpsc_queue.h:44-46 | the destructor leaves the stack empty and the heap empty; the deallocations it performs number exactly the values held and the nodes allocated, so nothing leaks |
| StackModel.ChainCoversHeap | mpsc_queue.h:49-59 | under the invariant, the allocated nodes are exactly the nodes of the chain, and there are as many of them as stored values |
| StackModel.PushThenPop | mpsc_queue.h:10-30 | Pop right after Push(v) returns `(v, true)` and restores the queue exactly as it was, apart from the allocator's next address |
| StackModel.PushAll | mpsc_queue.h:10-17 | pushing a sequence one value at a time leaves the values on top in reverse order, above the previous contents |
| StackModel.PushThreePopFour | mpsc_queue.h:10-30 | on an empty stack, Push(1), Push(2) and Push(3) followed by pops give 3, then 2, then 1, and a fourth pop finds nothing |
| StackModel.DequeueAllTwice | mpsc_queue.h:34-42 | a second DequeueAll straight after the first visits nothing |
| MpscQueue.Node.Init | mpsc_queue.h:53-54 | a new node holds the given value (its link starts at `null` until LinkBefore sets it) |
| MpscQueue.Node.LinkBefore | mpsc_queue.h:55-57 | LinkBefore sets the node's `next` to the given pointer |
| MpscQueue.MPSCQueue.Init | mpsc_queue.h:59 | a new queue (`head_{nullptr}`) satisfies `Valid()`, holds no values and owns only itself |
| MpscQueue.MPSCQueue.Push | mpsc_queue.h:10-17 | on the object heap, Push keeps `Valid()`, prepends `v` to `Contents`, and adds to `Repr` a fresh node that becomes the head |
| MpscQueue.MPSCQueue.Pop | mpsc_queue.h:21-30 | on the object heap, an empty Pop returns `(dflt, false)` and changes nothing; otherwise it returns the first value with `true`, drops it from `Contents`, and removes the old head from `Repr` |
| MpscQueue.MPSCQueue.DequeueAll | mpsc_queue.h:34-42 | on the object heap, the drain loop visits exactly the old `Contents` in order, and leaves `head` null, `Contents` empty and `Repr` holding only the queue |
| MpscQueue.MPSCQueue.Dispose | mpsc_queue.h:44-46 | the destructor leaves `Contents` empty and no node in `Repr` |
| MpscQueue.NewQueueIsApart | mpsc_queue.h:59 | a queue constructed while another valid queue exists is valid, empty, and shares no object with the other |
| MpscQueue.PushKeepsQueuesApart | mpsc_queue.h:10-17 | Push on one of two queues that share no object keeps both valid, keeps them sharing none, and leaves the other's contents unchanged |
| MpscQueue.PopKeepsQueuesApart | mpsc_queue.h:21-30 | Pop on one of two queues that share no object keeps both valid, keeps them sharing none, and leaves the other's contents unchanged |
| MpscQueue.DequeueAllKeepsQueuesApart | mpsc_queue.h:34-42 | DequeueAll on one of two queues that share no object keeps both valid, keeps them sharing none, and leaves the other's contents unchanged |
| MpscQueue.PopScenario | mpsc_queue.h:10-30 | on a new object-model queue, Push(1), Push(2), Push(3) and four pops return 3, 2, 1 with `found` set, then `found` unset |
| MpscQueue.DrainScenario | mpsc_queue.h:34-42 | on a new object-model queue, DequeueAll after Push(1), Push(2), Push(3) visits 3, 2, 1, and a second DequeueAll visits nothing |

## Left out

- Atomics are left out: `std::atomic`, the `compare_exchange_weak` retry loop and the memory orderings (mpsc_queue.h:12-14, 26, 35). Each atomic access is a plain read or write, and every compare-and-swap succeeds on its first attempt. Lock-freedom, progress and visibility are properties of concurrent runs, and this model has none.
- Concurrency hazards are left out. Inside mpsc_queue.h:26, `Pop` reads the top node A and its `next` X before the exchange runs. A `Push(B)` that lands in that gap makes `head_` point at B, which points at A. The exchange then returns B and sets `head_` to X, so Pop hands back B's value while A, the previous top, is cut off: its value is never returned and its node is never freed. This needs a second thread, so it cannot happen here. ABA hazards and node reuse are also out of scope. The value model's allocator never hands out an address twice.
- Memory reclamation is left out. `delete` is modelled as removing the node from the heap map (value model) or from `Repr` (object model). Allocation failure in `new Node` is not modelled.
- The callback is not called. Its arbitrary side effects are replaced by the sequence of values it would receive, in call order.
- `Node`'s constructor leaves `next` uninitialised until `LinkBefore` sets it. In the object model it starts as `null`, and in the value model the node is built with its link already set.
- Many instances are not modelled. In the value model each queue has its own heap, so the fact that no node is shared between two instances holds by construction. In the object model `Valid()` describes one instance only. That no node is shared between instances is kept by the frames: a new queue owns only fresh objects, Push adds a fresh node, and Pop and DequeueAll only remove nodes from `Repr`. The `...KeepsQueuesApart` methods and `NewQueueIsApart` state this for two queues.
- Pop's `T{}` is a parameter. On an empty stack the source returns a value-initialised `T{}` (mpsc_queue.h:23). The model returns the caller's `dflt`, because a Dafny type parameter has no default value.
- Exceptions are left out. A callback that throws inside `DequeueAll` (mpsc_queue.h:37) leaves the rest of the detached chain unreachable and never freed. A copy of `T` that throws in `Pop` (mpsc_queue.h:27) leaks the popped node, which is already unlinked. Both models assume these never throw. That assumption is also what lets the object model drop every detached node from `Repr` at the exchange, instead of one node after each callback.
