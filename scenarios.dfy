/**
 * What callers can conclude from the queue's contracts: draining a queue
 * yields its elements in priority order, and the uses exercised by the test
 * suite, each as a method that returns what the queue answered.
 */
module Scenarios {
  import opened Orders
  import opened Heap
  import opened PriorityQueues

  /** ys comes out in priority order: no element is less than one before it. */
  ghost predicate Ranked<T(!new)>(ys: seq<T>, less: (T, T) -> bool) {
    forall i, j | 0 <= i < j < |ys| :: !less(ys[j], ys[i])
  }

  /** Elements that neither ranks before the other are equal (true of `<` and `>` on numbers). */
  ghost predicate Total<T(!new)>(less: (T, T) -> bool) {
    forall a, b :: !less(a, b) && !less(b, a) ==> a == b
  }

  /** Under a total order, two ranked arrangements of one multiset start alike. */
  lemma RankedHeadsAgree<T(!new)>(less: (T, T) -> bool, a: seq<T>, b: seq<T>)
    requires StrictWeakOrder(less) && Total(less)
    requires multiset(a) == multiset(b) && Ranked(a, less) && Ranked(b, less)
    requires |a| > 0
    ensures |b| > 0 && a[0] == b[0]
  {
    assert a[0] in multiset(b) by { assert a[0] in multiset(a); }
    assert b[0] in multiset(a) by { assert b[0] in multiset(b); }
    var i :| 0 <= i < |a| && a[i] == b[0];
    var j :| 0 <= j < |b| && b[j] == a[0];
    assert !less(a[i], a[0]) by { assert i == 0 || 0 < i; }
    assert !less(b[j], b[0]) by { assert j == 0 || 0 < j; }
  }

  /** Removing the same first element from two sequences with one multiset leaves one multiset. */
  lemma TailsAgree<T>(a: seq<T>, b: seq<T>)
    requires multiset(a) == multiset(b) && |a| > 0 && |b| > 0 && a[0] == b[0]
    ensures multiset(a[1..]) == multiset(b[1..])
  {
    assert a == [a[0]] + a[1..] && b == [b[0]] + b[1..];
    assert multiset(a[1..]) == multiset(a) - multiset{a[0]};
    assert multiset(b[1..]) == multiset(b) - multiset{b[0]};
  }

  /**
   * Under a total order, the ranked arrangement of a multiset is unique, so
   * a drained queue's output is determined by the elements it held.
   */
  lemma {:induction false} RankedUnique<T(!new)>(less: (T, T) -> bool, a: seq<T>, b: seq<T>)
    requires StrictWeakOrder(less) && Total(less)
    requires multiset(a) == multiset(b) && Ranked(a, less) && Ranked(b, less)
    ensures a == b
    decreases |a|
  {
    if |a| > 0 {
      RankedHeadsAgree(less, a, b);
      TailsAgree(a, b);
      RankedUnique(less, a[1..], b[1..]);
      assert a == [a[0]] + a[1..] && b == [b[0]] + b[1..];
    } else {
      assert |b| == |multiset(b)| == 0;
    }
  }

  /**
   * One step of draining: appending the popped element, which no remaining
   * element is less than, keeps the output ranked and ahead of what remains.
   */
  lemma DrainStep<T(!new)>(less: (T, T) -> bool, ys: seq<T>, rest: multiset<T>, top: T)
    requires top in rest && forall x | x in rest :: !less(x, top)
    requires Ranked(ys, less) && forall i, x | 0 <= i < |ys| && x in rest :: !less(x, ys[i])
    ensures Ranked(ys + [top], less)
    ensures forall i, x | 0 <= i < |ys| + 1 && x in rest - multiset{top} :: !less(x, (ys + [top])[i])
    ensures multiset(ys + [top]) + (rest - multiset{top}) == multiset(ys) + rest
  {
  }

  /**
   * Pops until the queue is empty. What comes out is exactly what the queue
   * held, in priority order.
   */
  method PopAll<T(0, !new)>(pq: PriorityQueue<T>) returns (ys: seq<T>)
    requires pq.Valid()
    modifies pq, pq.heap
    ensures pq.Valid() && pq.heap == old(pq.heap) && pq.size == 0
    ensures multiset(ys) == old(pq.elements)
    ensures Ranked(ys, pq.less)
  {
    ys := [];
    while !pq.IsEmpty()
      invariant pq.Valid() && pq.heap == old(pq.heap)
      invariant multiset(ys) + pq.elements == old(pq.elements)
      invariant Ranked(ys, pq.less)
      invariant forall i, x | 0 <= i < |ys| && x in pq.elements :: !pq.less(x, ys[i])
      decreases pq.size
    {
      ghost var rest := pq.elements;
      var top := pq.Pop();
      DrainStep(pq.less, ys, rest, top);
      ys := ys + [top];
    }
  }

  /** Pushes every element of xs into an unbounded queue. */
  method PushAll<T(0, !new)>(pq: PriorityQueue<T>, xs: seq<T>)
    requires pq.Valid() && pq.limit == 0
    modifies pq, pq.heap
    ensures pq.Valid() && (pq.heap == old(pq.heap) || fresh(pq.heap))
    ensures pq.elements == old(pq.elements) + multiset(xs)
    ensures pq.size == old(pq.size) + |xs|
  {
    for k := 0 to |xs|
      invariant pq.Valid() && (pq.heap == old(pq.heap) || fresh(pq.heap))
      invariant pq.elements == old(pq.elements) + multiset(xs[..k])
      invariant pq.size == old(pq.size) + k
    {
      assert xs[..k + 1] == xs[..k] + [xs[k]];
      pq.Push(xs[k]);
    }
    assert xs[..|xs|] == xs;
  }

  /**
   * Pushing every element of xs into an unbounded queue and popping until it
   * is empty gives back the same elements, in priority order.
   */
  method PushAllThenPopAll<T(0, !new)>(xs: seq<T>, less: (T, T) -> bool) returns (ys: seq<T>)
    requires StrictWeakOrder(less)
    ensures multiset(ys) == multiset(xs)
    ensures Ranked(ys, less)
  {
    var pq := new PriorityQueue(less, 0);
    PushAll(pq, xs);
    ys := PopAll(pq);
  }

  /**
   * The size after pushing every element of xs into a new queue: the number
   * of pushes, capped at a positive limit.
   */
  method SizeAfterPushes<T(0, !new)>(xs: seq<T>, less: (T, T) -> bool, limit: nat) returns (n: nat)
    requires StrictWeakOrder(less)
    ensures n == if 0 < limit < |xs| then limit else |xs|
  {
    var pq := new PriorityQueue(less, limit);
    for k := 0 to |xs|
      invariant fresh(pq) && fresh(pq.heap)
      invariant pq.Valid() && pq.less == less && pq.limit == limit
      invariant pq.size == if 0 < limit < k then limit else k
    {
      pq.Push(xs[k]);
    }
    n := pq.Size();
  }

  /** `(a, b) => a < b`: the smallest number comes out first. */
  const Ascending: (int, int) -> bool := (a: int, b: int) => a < b
  /** `(a, b) => a > b`: the largest number comes out first. */
  const Descending: (int, int) -> bool := (a: int, b: int) => a > b

  lemma AscendingIsTotalOrder()
    ensures StrictWeakOrder(Ascending) && Total(Ascending)
  {
  }

  lemma DescendingIsTotalOrder()
    ensures StrictWeakOrder(Descending) && Total(Descending)
  {
  }

  /** Drained after pushing 2, 1, 2 in ascending order, a queue gives 1, 2, 2. */
  lemma AscendingOutcome(held: multiset<int>, ys: seq<int>)
    requires held == multiset{} + multiset{2} + multiset{1} + multiset{2}
    requires multiset(ys) == held && Ranked(ys, Ascending)
    ensures ys == [1, 2, 2]
  {
    AscendingIsTotalOrder();
    RankedUnique(Ascending, ys, [1, 2, 2]);
  }

  /** Ascending order: push 2, 1, 2, then pop until empty. */
  method AscendingOrder() returns (popped: seq<int>, finalSize: nat)
    ensures popped == [1, 2, 2] && finalSize == 0
  {
    AscendingIsTotalOrder();
    var pq := new PriorityQueue(Ascending, 0);
    pq.Push(2);
    pq.Push(1);
    pq.Push(2);
    ghost var held := pq.elements;
    popped := PopAll(pq);
    finalSize := pq.Size();
    AscendingOutcome(held, popped);
  }

  /** Drained after pushing 1, 2, 1 in descending order, a queue gives 2, 1, 1. */
  lemma DescendingOutcome(held: multiset<int>, ys: seq<int>)
    requires held == multiset{} + multiset{1} + multiset{2} + multiset{1}
    requires multiset(ys) == held && Ranked(ys, Descending)
    ensures ys == [2, 1, 1]
  {
    DescendingIsTotalOrder();
    RankedUnique(Descending, ys, [2, 1, 1]);
  }

  /** Descending order: push 1, 2, 1, then pop until empty. */
  method DescendingOrder() returns (popped: seq<int>, finalSize: nat)
    ensures popped == [2, 1, 1] && finalSize == 0
  {
    DescendingIsTotalOrder();
    var pq := new PriorityQueue(Descending, 0);
    pq.Push(1);
    pq.Push(2);
    pq.Push(1);
    ghost var held := pq.elements;
    popped := PopAll(pq);
    finalSize := pq.Size();
    DescendingOutcome(held, popped);
  }

  /**
   * The storage of an ascending queue with limit 3 as 3, 2, 1 are pushed:
   * slots 1..3 end up holding 1, 3, 2; then pushing 2 sifts it above 3 and
   * the overflow step drops the 3 left in slot 4, an even slot.
   */
  lemma BoundedAscendingStorage(s0: seq<int>)
    requires |s0| == 5
    ensures var s1 := SiftUp(s0[1 := 3], 1, Ascending);
      var s2 := SiftUp(s1[2 := 2], 2, Ascending);
      var s3 := SiftUp(s2[3 := 1], 3, Ascending);
      && s3[1] == 1 && s3[2] == 3 && s3[3] == 2
      && Evicted(SiftUp(s3[4 := 2], 4, Ascending), 4, Ascending) == 3
  {
    var s1 := SiftUp(s0[1 := 3], 1, Ascending);
    assert s1 == s0[1 := 3];
    var s2 := SiftUp(s1[2 := 2], 2, Ascending);
    assert s2 == Swap(s1[2 := 2], 2, 1);
    var s3 := SiftUp(s2[3 := 1], 3, Ascending);
    assert s3 == Swap(s2[3 := 1], 3, 1);
    var t := s3[4 := 2];
    assert SiftUp(t, 4, Ascending) == Swap(t, 4, 2);
  }

  /** Drained after keeping 1, 2, 2 in ascending order, a queue gives 1, 2, 2. */
  lemma BoundedAscendingOutcome(held: multiset<int>, ys: seq<int>)
    requires held == multiset{} + multiset{3} + multiset{2} + multiset{1} + multiset{2} - multiset{3}
    requires multiset(ys) == held && Ranked(ys, Ascending)
    ensures ys == [1, 2, 2]
  {
    AscendingIsTotalOrder();
    RankedUnique(Ascending, ys, [1, 2, 2]);
  }

  /**
   * Bounded ascending order with limit 3: push 3, 2, 1, then 2, then pop
   * until empty.
   */
  method BoundedAscendingOrder() returns (sizeAtLimit: nat, sizeAfterOverflow: nat, popped: seq<int>, finalSize: nat)
    ensures sizeAtLimit == 3 && sizeAfterOverflow == 3
    ensures popped == [1, 2, 2] && finalSize == 0
  {
    AscendingIsTotalOrder();
    var pq := new PriorityQueue(Ascending, 3);
    ghost var s0 := pq.heap[..];
    BoundedAscendingStorage(s0);
    pq.Push(3);
    ghost var s1 := pq.heap[..];
    pq.Push(2);
    ghost var s2 := pq.heap[..];
    pq.Push(1);
    ghost var s3 := pq.heap[..];
    assert s1 == SiftUp(s0[1 := 3], 1, Ascending);
    assert s2 == SiftUp(s1[2 := 2], 2, Ascending);
    assert s3 == SiftUp(s2[3 := 1], 3, Ascending);
    sizeAtLimit := pq.Size();
    pq.Push(2);
    sizeAfterOverflow := pq.Size();
    ghost var held := pq.elements;
    popped := PopAll(pq);
    finalSize := pq.Size();
    BoundedAscendingOutcome(held, popped);
  }

  /**
   * The storage of a descending queue with limit 3 as 2, 1, 3 are pushed:
   * slots 1..3 end up holding 3, 1, 2; then pushing 3 sifts it up to slot 2
   * and the overflow step drops the 1 left in slot 4, an even slot.
   */
  lemma BoundedDescendingStorage(s0: seq<int>)
    requires |s0| == 5
    ensures var s1 := SiftUp(s0[1 := 2], 1, Descending);
      var s2 := SiftUp(s1[2 := 1], 2, Descending);
      var s3 := SiftUp(s2[3 := 3], 3, Descending);
      && s3[1] == 3 && s3[2] == 1 && s3[3] == 2
      && Evicted(SiftUp(s3[4 := 3], 4, Descending), 4, Descending) == 1
  {
    var s1 := SiftUp(s0[1 := 2], 1, Descending);
    assert s1 == s0[1 := 2];
    var s2 := SiftUp(s1[2 := 1], 2, Descending);
    assert s2 == s1[2 := 1];
    var s3 := SiftUp(s2[3 := 3], 3, Descending);
    assert s3 == Swap(s2[3 := 3], 3, 1);
    var t := s3[4 := 3];
    var u := Swap(t, 4, 2);
    assert SiftUp(u, 2, Descending) == SiftUp(Swap(u, 2, 1), 1, Descending) == Swap(u, 2, 1);
  }

  /** Drained after keeping 3, 3, 2 in descending order, a queue gives 3, 3, 2. */
  lemma BoundedDescendingOutcome(held: multiset<int>, ys: seq<int>)
    requires held == multiset{} + multiset{2} + multiset{1} + multiset{3} + multiset{3} - multiset{1}
    requires multiset(ys) == held && Ranked(ys, Descending)
    ensures ys == [3, 3, 2]
  {
    DescendingIsTotalOrder();
    RankedUnique(Descending, ys, [3, 3, 2]);
  }

  /**
   * Bounded descending order with limit 3: push 2, 1, 3, then 3, then pop
   * until empty.
   */
  method BoundedDescendingOrder() returns (sizeAtLimit: nat, sizeAfterOverflow: nat, popped: seq<int>, finalSize: nat)
    ensures sizeAtLimit == 3 && sizeAfterOverflow == 3
    ensures popped == [3, 3, 2] && finalSize == 0
  {
    DescendingIsTotalOrder();
    var pq := new PriorityQueue(Descending, 3);
    ghost var s0 := pq.heap[..];
    BoundedDescendingStorage(s0);
    pq.Push(2);
    ghost var s1 := pq.heap[..];
    pq.Push(1);
    ghost var s2 := pq.heap[..];
    pq.Push(3);
    ghost var s3 := pq.heap[..];
    assert s1 == SiftUp(s0[1 := 2], 1, Descending);
    assert s2 == SiftUp(s1[2 := 1], 2, Descending);
    assert s3 == SiftUp(s2[3 := 3], 3, Descending);
    sizeAtLimit := pq.Size();
    pq.Push(3);
    sizeAfterOverflow := pq.Size();
    ghost var held := pq.elements;
    popped := PopAll(pq);
    finalSize := pq.Size();
    BoundedDescendingOutcome(held, popped);
  }

  /**
   * The storage of an ascending queue with limit 3 as 1, 2, 5 are pushed:
   * nothing moves; then 3 stays in slot 4, an even slot, and is dropped.
   */
  lemma LocalChoiceStorage(s0: seq<int>)
    requires |s0| == 5
    ensures var s1 := SiftUp(s0[1 := 1], 1, Ascending);
      var s2 := SiftUp(s1[2 := 2], 2, Ascending);
      var s3 := SiftUp(s2[3 := 5], 3, Ascending);
      Evicted(SiftUp(s3[4 := 3], 4, Ascending), 4, Ascending) == 3
  {
    var s1 := SiftUp(s0[1 := 1], 1, Ascending);
    assert s1 == s0[1 := 1];
    var s2 := SiftUp(s1[2 := 2], 2, Ascending);
    assert s2 == s1[2 := 2];
    var s3 := SiftUp(s2[3 := 5], 3, Ascending);
    assert s3 == s2[3 := 5];
    assert SiftUp(s3[4 := 3], 4, Ascending) == s3[4 := 3];
  }

  /** Drained after keeping 1, 2, 5 in ascending order, a queue gives 1, 2, 5. */
  lemma LocalChoiceOutcome(held: multiset<int>, ys: seq<int>)
    requires held == multiset{} + multiset{1} + multiset{2} + multiset{5} + multiset{3} - multiset{3}
    requires multiset(ys) == held && Ranked(ys, Ascending)
    ensures ys == [1, 2, 5]
  {
    AscendingIsTotalOrder();
    RankedUnique(Ascending, ys, [1, 2, 5]);
  }

  /**
   * A bounded queue does not keep the `limit` best elements overall: with
   * limit 3 in ascending order, pushing 1, 2, 5, 3 drops 3 and keeps 5.
   */
  method BoundedKeepsLocalChoice() returns (popped: seq<int>)
    ensures popped == [1, 2, 5]
  {
    AscendingIsTotalOrder();
    var pq := new PriorityQueue(Ascending, 3);
    ghost var s0 := pq.heap[..];
    LocalChoiceStorage(s0);
    pq.Push(1);
    ghost var s1 := pq.heap[..];
    pq.Push(2);
    ghost var s2 := pq.heap[..];
    pq.Push(5);
    ghost var s3 := pq.heap[..];
    assert s1 == SiftUp(s0[1 := 1], 1, Ascending);
    assert s2 == SiftUp(s1[2 := 2], 2, Ascending);
    assert s3 == SiftUp(s2[3 := 5], 3, Ascending);
    pq.Push(3);
    ghost var held := pq.elements;
    popped := PopAll(pq);
    LocalChoiceOutcome(held, popped);
  }

  /** Peeking at an ascending queue holding 2, 1, 3 gives 1. */
  lemma FirstPeekOutcome(held: multiset<int>, top: int)
    requires held == multiset{} + multiset{2} + multiset{1} + multiset{3}
    requires top in held && forall x | x in held :: !Ascending(x, top)
    ensures top == 1
  {
    assert 1 in held;
  }

  /** Peeking at an ascending queue holding 2, 1, 3, 0 gives 0. */
  lemma SecondPeekOutcome(held: multiset<int>, top: int)
    requires held == multiset{} + multiset{2} + multiset{1} + multiset{3} + multiset{0}
    requires top in held && forall x | x in held :: !Ascending(x, top)
    ensures top == 0
  {
    assert 0 in held;
  }

  /**
   * Peek: push 2, 1, 3 into an ascending queue and peek, then push 0 and
   * peek again. Peeking does not change the size.
   */
  method PeekScenario() returns (size1: nat, top1: int, size2: nat, top2: int, size3: nat)
    ensures size1 == 3 && top1 == 1
    ensures size2 == 4 && top2 == 0 && size3 == 4
  {
    AscendingIsTotalOrder();
    var pq := new PriorityQueue(Ascending, 0);
    pq.Push(2);
    pq.Push(1);
    pq.Push(3);
    size1 := pq.Size();
    top1 := pq.Peek();
    FirstPeekOutcome(pq.elements, top1);
    pq.Push(0);
    size2 := pq.Size();
    top2 := pq.Peek();
    SecondPeekOutcome(pq.elements, top2);
    size3 := pq.Size();
  }
}
