/**
 * `PriorityQueue`: a binary heap ordered by a caller-supplied comparator,
 * optionally bounded to `limit` elements.
 *
 * The storage `heap` is 1-indexed (slot 0 unused) and the live elements are
 * in slots 1..size. In bounded mode the storage has exactly `limit + 2`
 * slots and never changes; in unbounded mode it starts with 32 slots and
 * doubles when the last one fills.
 */
module PriorityQueues {
  import opened Orders
  import opened Heap

  /** Storage slots of an unbounded queue when it is created. */
  const DefaultSize: nat := 32

  class PriorityQueue<T(0, !new)> {
    /** `less(a, b)`: a has priority over b. */
    const less: (T, T) -> bool
    /** The bound on the number of elements; 0 means unbounded. */
    const limit: nat
    var heap: array<T>
    var size: nat
    /** The live elements, slots 1..size, as a multiset. */
    ghost var elements: multiset<T>

    ghost predicate Valid()
      reads this, heap
    {
      && StrictWeakOrder(less)
      && size + 2 <= heap.Length
      && (limit > 0 ==> heap.Length == limit + 2)
      && IsHeap(heap[..], size, less)
      && elements == Live(heap[..], size)
    }

    /**
     * A new, empty queue. A positive `limit` makes it bounded with
     * `limit + 2` slots of storage; 0 stands for an absent limit.
     */
    constructor (less: (T, T) -> bool, limit: nat)
      requires StrictWeakOrder(less)
      ensures Valid() && fresh(heap)
      ensures this.less == less && this.limit == limit
      ensures heap.Length == if limit > 0 then limit + 2 else DefaultSize
      ensures size == 0 && elements == multiset{}
    {
      this.less := less;
      this.limit := limit;
      heap := new T[if limit > 0 then limit + 2 else DefaultSize];
      size := 0;
      elements := multiset{};
    }

    /**
     * Inserts v. The new element goes to slot size + 1 and bubbles up. When
     * that fills the last slot of storage, a bounded queue drops one element
     * of its last two slots again, and an unbounded one grows its storage.
     */
    method Push(v: T)
      requires Valid()
      modifies this, heap
      ensures Valid()
      ensures limit > 0 ==> heap == old(heap) && size <= limit
      ensures old(size) + 2 < old(heap.Length) ==>
        && heap == old(heap) && size == old(size) + 1
        && heap[..] == SiftUp(old(heap[..])[size := v], size, less)
        && elements == old(elements) + multiset{v}
      ensures old(size) + 2 == old(heap.Length) && limit > 0 ==>
        var placed := SiftUp(old(heap[..])[size + 1 := v], size + 1, less);
        && size == old(size) && heap[..] == Evict(placed, size + 1, less)
        && Evicted(placed, size + 1, less) in old(elements) + multiset{v}
        && elements == old(elements) + multiset{v} - multiset{Evicted(placed, size + 1, less)}
      ensures old(size) + 2 == old(heap.Length) && limit == 0 ==>
        && fresh(heap) && heap.Length == 2 * old(heap.Length) && size == old(size) + 1
        && heap[..old(heap.Length)] == SiftUp(old(heap[..])[size := v], size, less)
        && elements == old(elements) + multiset{v}
    {
      ghost var before := heap[..];
      size := size + 1;
      var sz := size;
      heap[sz] := v;
      ghost var written := heap[..];
      assert written == before[sz := v];
      if sz > 1 {
        BubbleUp(sz);
      }
      ghost var placed := heap[..];
      assert placed == SiftUp(written, sz, less);
      assert IsHeap(placed, sz, less) && Live(placed, sz) == Live(before, sz - 1) + multiset{v} by {
        AppendBreaksOnlyLast(before, sz - 1, v, less);
        SiftUpRestoresOrder(written, sz, sz, less);
        SiftUpPermutes(written, sz, sz, less);
      }
      elements := elements + multiset{v};
      if sz == heap.Length - 1 {
        if limit > 0 {
          DropOverflow();
          elements := elements - multiset{Evicted(placed, sz, less)};
        } else {
          Grow();
        }
      }
    }

    /**
     * The bounded-mode overflow step of `push`, once slot `size` is the last
     * slot of storage: when that slot is odd and above 1 and its left sibling
     * is not less than it, it overwrites the sibling; either way it then
     * leaves the live region.
     */
    method DropOverflow()
      requires 1 <= size < heap.Length && IsHeap(heap[..], size, less)
      modifies this`size, heap
      ensures size == old(size) - 1
      ensures heap[..] == Evict(old(heap[..]), old(size), less)
      ensures IsHeap(heap[..], size, less)
      ensures Evicted(old(heap[..]), old(size), less) in Live(old(heap[..]), old(size))
      ensures Live(heap[..], size) == Live(old(heap[..]), old(size)) - multiset{Evicted(old(heap[..]), old(size), less)}
    {
      ghost var placed := heap[..];
      var sz := size;
      if sz > 1 && sz % 2 != 0 {
        var l := sz - 1;
        if Gt(l, sz) {
          heap[l] := heap[sz];
        }
      }
      size := size - 1;
      assert heap[..] == Evict(placed, sz, less);
      EvictKeepsOrder(placed, sz, less);
      EvictRemovesOne(placed, sz, less);
    }

    /**
     * Removes and returns the element at the root. The last live element
     * moves to the root and sinks down while the size still counts the
     * vacated slot; only then does the size drop.
     */
    method Pop() returns (top: T)
      requires Valid() && size > 0
      modifies this, heap
      ensures Valid() && heap == old(heap)
      ensures top == old(heap[1])
      ensures top in old(elements) && forall x | x in old(elements) :: !less(x, top)
      ensures size == old(size) - 1
      ensures elements == old(elements) - multiset{top}
      ensures heap[..] == SiftDown(old(heap[..])[1 := old(heap[size])], 1, old(size), less)
    {
      ghost var before, n := heap[..], size;
      top := heap[1];
      heap[1] := heap[size];
      ghost var moved := heap[..];
      assert moved == before[1 := before[n]];
      SinkDown(1);
      assert IsHeap(heap[..], n - 1, less) by {
        MoveLastBreaksOnlyRoot(before, n, less);
        SiftDownRestoresOrder(moved, 1, n, less);
      }
      assert Live(heap[..], n - 1) == Live(before, n) - multiset{top} by {
        MoveLastToRoot(before, n);
        SiftDownPermutes(moved, 1, n, less);
      }
      assert top in Live(before, n) && forall x | x in Live(before, n) :: !less(x, top) by {
        RootIsMinimum(before, n, less);
      }
      size := size - 1;
      elements := elements - multiset{top};
    }

    /** The element at the root: live, and no live element is less than it. */
    function Peek(): (top: T)
      reads this, heap
      requires Valid() && size > 0
      ensures top == heap[1]
      ensures top in elements
      ensures forall x | x in elements :: !less(x, top)
    {
      RootIsMinimum(heap[..], size, less);
      heap[1]
    }

    /** The number of live elements. */
    function Size(): (n: nat)
      reads this, heap
      requires Valid()
      ensures n == |elements|
    {
      size
    }

    function IsEmpty(): (b: bool)
      reads this, heap
      requires Valid()
      ensures b <==> Size() == 0
      ensures b <==> elements == multiset{}
    {
      size == 0
    }

    /** All live elements, in storage order. */
    function GetAll(): (all: seq<T>)
      reads this, heap
      requires Valid()
      ensures |all| == Size() && multiset(all) == elements
    {
      heap[1..size + 1]
    }

    /** `#bubbleUp(i)`: moves the element at slot i up while its parent is not less than it. */
    method BubbleUp(i: nat)
      requires 1 <= i < heap.Length
      modifies heap
      ensures heap[..] == SiftUp(old(heap[..]), i, less)
    {
      var ci := i;
      var pi := ci / 2;
      while pi > 0 && Gt(pi, ci)
        invariant 1 <= ci <= i && pi == ci / 2
        invariant SiftUp(heap[..], ci, less) == SiftUp(old(heap[..]), i, less)
        decreases ci
      {
        Swap(ci, pi);
        ci := pi;
        pi := pi / 2;
      }
    }

    /**
     * `#sinkDown(i)`: exchanges slot i with the later of its children that
     * no other candidate ranks strictly before, if that is not i itself, and
     * continues there, comparing only children whose index is below `size`.
     */
    method SinkDown(i: nat)
      requires 1 <= i <= size < heap.Length
      modifies heap
      ensures heap[..] == SiftDown(old(heap[..]), i, size, less)
      decreases size - i
    {
      var min := i;
      var l := 2 * i;
      var r := l + 1;
      if l < size && Gt(min, l) {
        min := l;
      }
      if r < size && Gt(min, r) {
        min := r;
      }
      if min != i {
        Swap(i, min);
        SinkDown(min);
      }
    }

    /** `#gt(i, j)`: the element at slot i is not less than the one at slot j. */
    function Gt(i: nat, j: nat): (b: bool)
      reads this, heap
      requires i < heap.Length && j < heap.Length
      ensures !b ==> less(heap[i], heap[j])
      ensures StrictWeakOrder(less) ==> (i == j ==> b) && (b || !less(heap[j], heap[i]))
    {
      !less(heap[i], heap[j])
    }

    /** `#swap(i, j)`. */
    method Swap(i: nat, j: nat)
      requires i < heap.Length && j < heap.Length
      modifies heap
      ensures heap[..] == Heap.Swap(old(heap[..]), i, j)
    {
      var tmp := heap[i];
      heap[i] := heap[j];
      heap[j] := tmp;
    }

    /** Unbounded growth: fresh storage of twice the length, holding the old slots first. */
    method Grow()
      requires size < heap.Length
      modifies this`heap
      ensures fresh(heap) && heap.Length == 2 * old(heap.Length)
      ensures heap[..old(heap.Length)] == old(heap[..])
      ensures Live(heap[..], size) == Live(old(heap[..]), size)
      ensures IsHeap(old(heap[..]), size, less) ==> IsHeap(heap[..], size, less)
    {
      var grown := new T[2 * heap.Length];
      var k := 0;
      while k < heap.Length
        invariant heap == old(heap) && 0 <= k <= heap.Length
        invariant forall j | 0 <= j < k :: grown[j] == heap[j]
      {
        grown[k] := heap[k];
        k := k + 1;
      }
      ghost var was := heap[..];
      heap := grown;
      assert heap[..][1..size + 1] == was[1..size + 1];
      if IsHeap(was, size, less) {
        forall i | 2 <= i <= size ensures OrderedAt(heap[..], i, less) {
          assert OrderedAt(was, i, less);
        }
      }
    }
  }
}
