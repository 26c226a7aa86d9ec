# PriorityQueue: a comparator-ordered binary heap, modelled in Dafny

The repository is a single JavaScript class, `PriorityQueue`. It is a binary
heap whose order is set by a caller-supplied comparator `less(a, b)`, meaning
that `a` has priority over `b`. It can optionally be bounded to `limit`
elements. Elements live in a 1-indexed array `#heap`: slot 0 is unused and
the live elements occupy slots 1..`#size`. The parent of slot `i` is
`i / 2`, and its children are `2 * i` and `2 * i + 1`.

- `push` writes the new value at slot `size + 1` and bubbles it up.
- In bounded mode, storage has exactly `limit + 2` slots. When a push fills
  the last one, the queue drops one element by comparing the last slot with
  its left sibling, a constant-time step.
- `pop` moves the last live element to the root and sinks it down. While
  doing so it only looks at children below the old size.
- `peek`, `size`, `isEmpty` and `getAll` are read-only queries.

The project is organised as follows:

- `orders.dfy` (module `Orders`) defines what the comparator must be: a
  strict weak order.
- `heap.dfy` (module `Heap`) holds the heap's algorithms as functions on the
  storage sequence: `SiftUp` is `#bubbleUp`, `SiftDown` is `#sinkDown`, and
  `Evict`/`Evicted` are the bounded overflow step. It also holds the lemmas
  that these functions permute the live slots, restore heap order, and leave
  everything else alone.
- `priority_queue.dfy` (module `PriorityQueues`) defines the class
  `PriorityQueue<T>`. It has an `array<T>` for storage, `size`, `limit`
  (0 stands for an absent limit), the comparator, and a ghost multiset of
  the live elements. Each method is proved against the functions of `Heap`.
- `growth.dfy` (module `Growth`) states the storage truncation that the
  source performs in unbounded mode, and what that truncation loses.
- `scenarios.dfy` (module `Scenarios`) shows what callers can conclude. A
  drained queue yields its elements in priority order. The size after a run
  of pushes is the number of pushes, capped at the limit. It also holds the
  test suite's scenarios, each as a method whose contract gives the
  expected answers.

## Model

| member | source | states |
|---|---|---|
| `PriorityQueues.PriorityQueue.constructor` | src/PriorityQueue.mjs:76-81 | A new queue is valid and empty. Its storage has `limit + 2` slots when bounded and the default 32 when unbounded. |
| `PriorityQueues.PriorityQueue.Push` | src/PriorityQueue.mjs:88-109 | The queue stays valid (heap order, live multiset). Below the last slot: size + 1, the storage is the sifted-up write, and the multiset gains `v`. On overflow in bounded mode: the size is unchanged and the storage is the eviction applied to the sifted-up write. The multiset then gains `v` and loses exactly one occurrence of the evicted element, which was live. In bounded mode the size never exceeds `limit` and the storage array is never replaced. |
| `PriorityQueues.PriorityQueue.DropOverflow` | src/PriorityQueue.mjs:95-104 | Overwrites the left sibling only when the last slot is odd and above 1 and the sibling is not less than it. The size drops by one, heap order holds on the remaining slots, and exactly one occurrence of the dropped element leaves the live multiset. |
| `PriorityQueues.PriorityQueue.Pop` | src/PriorityQueue.mjs:116-123 | Returns the old root. The root was live and no live element is less than it. The size drops by exactly 1, the multiset loses exactly that one occurrence, and the queue is valid again. The storage is the sink-down, bounded by the old size, of the storage with the last element moved to the root. |
| `PriorityQueues.PriorityQueue.Peek` | src/PriorityQueue.mjs:130-132 | Returns slot 1, which holds a live element, and no live element is less than it. |
| `PriorityQueues.PriorityQueue.Size` | src/PriorityQueue.mjs:139-141 | The size is the number of live elements. |
| `PriorityQueues.PriorityQueue.IsEmpty` | src/PriorityQueue.mjs:148-150 | True exactly when the size is 0, that is, when the queue holds no element. |
| `PriorityQueues.PriorityQueue.GetAll` | src/PriorityQueue.mjs:159-161 | Returns exactly the live elements, as many as the size, with no claim about their order. |
| `PriorityQueues.PriorityQueue.BubbleUp` | src/PriorityQueue.mjs:167-175 | The loop leaves storage equal to `Heap.SiftUp` of the old storage. |
| `PriorityQueues.PriorityQueue.SinkDown` | src/PriorityQueue.mjs:181-195 | The recursion leaves storage equal to `Heap.SiftDown` of the old storage, bounded by `size`. It terminates because the index strictly grows. |
| `PriorityQueues.PriorityQueue.Swap` | src/PriorityQueue.mjs:213-217 | Exchanges exactly slots i and j. |
| `PriorityQueues.PriorityQueue.Grow` | src/PriorityQueue.mjs:105-107 | Replaces line 106. The new storage is fresh and twice as long, and it keeps every old slot. The live multiset and heap order are unchanged. |
| `PriorityQueues.PriorityQueue.Gt` | src/PriorityQueue.mjs:204-206 | False only when the element at slot i is less than the one at slot j. Under a strict weak order it holds for i == j, and for any two slots it holds in at least one direction, so every pair of slots is comparable. |
| `Heap.Swap` | src/PriorityQueue.mjs:213-217 | Slot i receives slot j's element and slot j receives slot i's. Every other slot and the length are unchanged. |
| `Heap.SiftUp` | src/PriorityQueue.mjs:167-175 | Its own contract says only that the length is kept. What it means is proved in `Heap.SiftUpPermutes` and `Heap.SiftUpRestoresOrder`. |
| `Heap.SiftDown` | src/PriorityQueue.mjs:181-195 | Its own contract says only that the length is kept. What it means is proved in `Heap.SiftDownPermutes` and `Heap.SiftDownRestoresOrder`. |
| `Heap.DropsSibling` | src/PriorityQueue.mjs:97-99 | When it holds, slot sz - 1 is at least 2 and is the left child of sz's parent: the two slots are siblings. |
| `Heap.Evict` | src/PriorityQueue.mjs:96-104 | Only slot sz - 1 can change. It either keeps its element or receives slot sz's, and the latter only when its own element is not less than slot sz's. |
| `Heap.Evicted` | src/PriorityQueue.mjs:96-104 | The dropped element is slot sz's. The exception is when sz is above 1 and the left sibling is not less than slot sz, in which case it is the sibling's element. |
| `Heap.Smallest` | src/PriorityQueue.mjs:182-190 | The slot picked is i itself, or a child of i whose index is below the bound. |
| `Heap.SmallestRanksFirst` | src/PriorityQueue.mjs:182-190 | Neither slot i nor a child of i below the bound is less than the slot picked. |
| `Heap.SwapPermutes` | src/PriorityQueue.mjs:213-217 | Swapping two live slots leaves the live multiset unchanged. |
| `Heap.AppendBreaksOnlyLast` | src/PriorityQueue.mjs:89-91 | Writing at slot size + 1 of a heap breaks order only at that slot, and adds exactly `v` to the live multiset. |
| `Heap.SiftUpPermutes` | src/PriorityQueue.mjs:167-175 | Bubbling up permutes the live slots and touches neither slot 0 nor any slot above the start index. |
| `Heap.SiftUpRestoresOrder` | src/PriorityQueue.mjs:167-175 | Bubbling up a heap that is broken only at the start slot gives a heap: no live child is less than its parent. |
| `Heap.MoveLastToRoot` | src/PriorityQueue.mjs:117-119 | Moving the last live element to the root removes exactly one occurrence of the old root from the live multiset. |
| `Heap.MoveLastBreaksOnlyRoot` | src/PriorityQueue.mjs:117-120 | After that move, heap order is broken only below the root. |
| `Heap.SiftDownPermutes` | src/PriorityQueue.mjs:118-120 | Sinking down, bounded by the old size, permutes the slots 1..size - 1. It touches neither slot 0 nor the vacated last slot, so that slot is never pulled back into the live region. |
| `Heap.SiftDownRestoresOrder` | src/PriorityQueue.mjs:181-195 | Sinking down a heap that is broken only below slot i restores heap order on 1..size - 1. |
| `Heap.EvictRemovesOne` | src/PriorityQueue.mjs:96-104 | The element dropped on overflow was live. The live multiset loses exactly one occurrence of it. |
| `Heap.EvictKeepsOrder` | src/PriorityQueue.mjs:96-104 | Heap order holds after the overflow step. Slot size - 1 is a leaf, and what it receives is not less than its parent. |
| `Heap.EvictDropsWorseOfPair` | src/PriorityQueue.mjs:97-101 | The dropped element is not less than the element left in the sibling pair, nor than the pair's shared parent. |
| `Heap.RootRanksFirst` | src/PriorityQueue.mjs:130-132 | In a heap, no live slot holds an element less than the root. |
| `Heap.RootIsMinimum` | src/PriorityQueue.mjs:116-117 | The root of a non-empty heap is live, and no live element is less than it. |
| `Growth.TruncatedLength` | src/PriorityQueue.mjs:106 | `length >>>= 2` divides the length by 4, rounding down. |
| `Growth.Truncated` | src/PriorityQueue.mjs:106 | After the truncation, the storage is the first quarter of the old storage. |
| `Growth.SliceLive` | src/PriorityQueue.mjs:159-161 | `getAll` as written, `slice(1, n + 1)` with its ends clamped to the length. It returns n elements, exactly the live multiset, when the storage holds slot n, and only length - 1 elements otherwise. |
| `Growth.TruncationLosesLiveSlots` | src/PriorityQueue.mjs:95-107 | Line 106 runs when n = length - 1 slots are live. The truncated storage no longer reaches slot n, and `getAll` then returns only length / 4 - 1 of the n elements. The lost elements are exactly those of slots length / 4..n, and there is at least one of them. |
| `Growth.DefaultStorageTruncation` | src/PriorityQueue.mjs:48-106 | Starting from the default 32 slots, 8 slots remain. `getAll` returns 7 of the 31 live elements, and the 24 in slots 8..31 are lost. |
| `Scenarios.PopAll` | src/PriorityQueue.mjs:116-123 | Popping until empty yields exactly the queue's multiset, with no element less than one popped before it. |
| `Scenarios.PushAll` | src/PriorityQueue.mjs:88-109 | Pushing a sequence into an unbounded queue adds its multiset, and the size grows by its length. |
| `Scenarios.PushAllThenPopAll` | src/PriorityQueue.mjs:5-24 | Push-then-drain returns the pushed elements as a permutation, in priority order. |
| `Scenarios.SizeAfterPushes` | src/PriorityQueue.mjs:26-38 | After n pushes into a new queue, the size is n, capped at a positive limit. |
| `Scenarios.AscendingOrder` | test/PriorityQueue.test.mjs:5-14 | Ascending: pushing 2, 1, 2 pops 1, 2, 2 and leaves size 0. |
| `Scenarios.DescendingOrder` | test/PriorityQueue.test.mjs:15-24 | Descending: pushing 1, 2, 1 pops 2, 1, 1 and leaves size 0. |
| `Scenarios.BoundedAscendingOrder` | test/PriorityQueue.test.mjs:25-37 | Limit 3, ascending: after 3, 2, 1 the size is 3. After pushing 2 it is still 3, and the pops give 1, 2, 2 and leave size 0. |
| `Scenarios.BoundedDescendingOrder` | test/PriorityQueue.test.mjs:38-50 | Limit 3, descending: after 2, 1, 3 the size is 3. After pushing 3 it is still 3, and the pops give 3, 3, 2 and leave size 0. |
| `Scenarios.PeekScenario` | test/PriorityQueue.test.mjs:51-62 | Pushing 2, 1, 3 gives size 3 and peek 1. Then pushing 0 gives size 4 and peek 0, and the size is still 4 after peeking. |
| `Scenarios.BoundedKeepsLocalChoice` | src/PriorityQueue.mjs:95-104 | Limit 3, ascending: pushing 1, 2, 5, 3 keeps 1, 2, 5 and drops 3. The eviction is local, not a choice of the best `limit` elements. |

## Left out

- Line 106 is replaced. In unbounded mode, when a push fills the last storage slot, the source executes `this.#heap.length >>>= 2`. `PriorityQueues.PriorityQueue.Grow` instead doubles the storage (see Findings). Line 106 as written is modelled only as a function on storage, in `Growth`.
- `PriorityQueues.PriorityQueue.Pop`: requires a non-empty queue. In the source, `pop` on an empty queue returns `undefined` and drives `#size` to -1. That path is not modelled.
- `PriorityQueues.PriorityQueue.Peek`: requires a non-empty queue. On an empty queue the source returns `undefined`.
- `PriorityQueues.PriorityQueue.constructor`: takes `limit` as a `nat`, with 0 standing for an absent limit. This matches the falsy tests at lines 79 and 96. Negative limits are not modelled: in JavaScript they give an array-length `RangeError` or odd array behaviour.
- The comparator must be a strict weak order. The source places no requirement on it, but heap order cannot be stated for an arbitrary predicate.
- Exceptions thrown by the comparator are not modelled.
- The `undefined` written into vacated slots (lines 103 and 119) is not modelled. Slots beyond `size` are left unconstrained. The element type needs a default value (`T(0)`) so that arrays can be allocated.
- The order of `getAll` is not modelled, only its contents. The source documents that order as unpredictable.
- `>>>` and `<<` on indices are modelled as `i / 2` and `2 * i` on unbounded integers. Their 32-bit behaviour is not modelled: `<<` wraps to a negative number from 2^30 on, while `>>>` is exact below 2^32.
- The ES module export and the mocha test harness are not part of this model.
- No retention property is proved for bounded mode beyond the local eviction step. The eviction compares only the last slot with its left sibling, so a bounded queue need not keep the `limit` best elements seen. `Scenarios.BoundedKeepsLocalChoice` shows pushes where it keeps a worse one.
- Line 106 shifts by two, so the truncated storage keeps a quarter of its slots, not half.

## Findings

| source | as written | input that shows it | evidently intended | confidence | as-written member | corrected member |
|---|---|---|---|---|---|---|
| src/PriorityQueue.mjs:106 | When a push fills the last slot of an unbounded queue, `length >>>= 2` truncates the storage to a quarter of its length. | An unbounded queue and 31 pushes: the storage goes from 32 slots to 8, and slots 8..31 (24 live elements) are discarded while the size stays 31. | Grow the storage and keep every live slot. | not executed; follows from the array-length semantics of JavaScript | `Growth.TruncationLosesLiveSlots` | `PriorityQueues.PriorityQueue.Grow` |
