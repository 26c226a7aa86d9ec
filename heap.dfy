/**
 * The binary heap behind the priority queue, as functions on its storage.
 *
 * Storage is 1-indexed: slot 0 is never used, the live elements sit in slots
 * 1..n, the parent of slot i is slot i / 2 and its children are 2 * i and
 * 2 * i + 1. The functions follow the queue's private helpers step by step:
 * SiftUp is `#bubbleUp`, SiftDown is `#sinkDown` (with its exclusive bound
 * on child indices) and Evict is the bounded-mode overflow step of `push`.
 */
module Heap {
  import opened Orders

  /** Heap order at slot i: the element there is not less than its parent's. */
  ghost predicate OrderedAt<T(!new)>(s: seq<T>, i: nat, less: (T, T) -> bool)
    requires 1 <= i < |s|
  {
    !less(s[i], s[i / 2])
  }

  /** Slots 1..n exist and are in heap order. */
  ghost predicate IsHeap<T(!new)>(s: seq<T>, n: nat, less: (T, T) -> bool) {
    n < |s| && forall i :: 2 <= i <= n ==> OrderedAt(s, i, less)
  }

  /** The live elements of storage s holding n of them. */
  ghost function Live<T(!new)>(s: seq<T>, n: nat): multiset<T>
    requires n < |s|
  {
    multiset(s[1..n + 1])
  }

  /** Storage s with slots i and j exchanged (`#swap`). */
  function Swap<T(!new)>(s: seq<T>, i: nat, j: nat): (r: seq<T>)
    requires i < |s| && j < |s|
    ensures |r| == |s| && r[i] == s[j] && r[j] == s[i]
    ensures forall k | 0 <= k < |s| && k != i && k != j :: r[k] == s[k]
  {
    s[i := s[j]][j := s[i]]
  }

  /**
   * `#bubbleUp(ci)`: while slot ci has a parent and the parent is not less
   * than it, exchange the two and continue from the parent.
   */
  function SiftUp<T(!new)>(s: seq<T>, ci: nat, less: (T, T) -> bool): (r: seq<T>)
    requires ci < |s|
    ensures |r| == |s|
    decreases ci
  {
    var pi := ci / 2;
    if pi > 0 && !less(s[pi], s[ci]) then SiftUp(Swap(s, ci, pi), pi, less) else s
  }

  /**
   * The slot `#sinkDown(i)` exchanges i with: the last of i, its left child
   * and its right child (children only when their index is below `bound`)
   * that none of them ranks strictly before. Since `#gt` is "not less", a
   * tie moves to the later slot.
   */
  function Smallest<T(!new)>(s: seq<T>, i: nat, bound: nat, less: (T, T) -> bool): (m: nat)
    requires 1 <= i && bound < |s|
    ensures m == i || (i < m < bound && m / 2 == i)
  {
    var l := 2 * i;
    var r := l + 1;
    var m1 := if l < bound && !less(s[i], s[l]) then l else i;
    if r < bound && !less(s[m1], s[r]) then r else m1
  }

  /**
   * `#sinkDown(i)` with the queue's size still at `bound`: exchange slot i
   * with Smallest(s, i, bound) and continue from there, until i itself is
   * the smallest.
   */
  function SiftDown<T(!new)>(s: seq<T>, i: nat, bound: nat, less: (T, T) -> bool): (r: seq<T>)
    requires 1 <= i <= bound < |s|
    ensures |r| == |s|
    decreases bound - i
  {
    var m := Smallest(s, i, bound, less);
    if m == i then s else SiftDown(Swap(s, i, m), m, bound, less)
  }

  /**
   * Whether the bounded-mode overflow at slot sz overwrites the left
   * sibling: sz is odd and above 1, and the sibling at sz - 1 is not less
   * than the element at sz.
   */
  predicate DropsSibling<T(!new)>(s: seq<T>, sz: nat, less: (T, T) -> bool): (b: bool)
    requires 1 <= sz < |s|
    ensures b ==> 2 <= sz - 1 && (sz - 1) / 2 == sz / 2 && 2 * (sz / 2) == sz - 1
  {
    sz > 1 && sz % 2 != 0 && !less(s[sz - 1], s[sz])
  }

  /** Storage after the overflow step; the live slots are then 1..sz - 1. */
  function Evict<T(!new)>(s: seq<T>, sz: nat, less: (T, T) -> bool): (r: seq<T>)
    requires 1 <= sz < |s|
    ensures |r| == |s|
    ensures forall k | 0 <= k < |s| && k != sz - 1 :: r[k] == s[k]
    ensures r[sz - 1] == s[sz - 1] || (r[sz - 1] == s[sz] && !less(s[sz - 1], s[sz]))
  {
    if DropsSibling(s, sz, less) then s[sz - 1 := s[sz]] else s
  }

  /** The element the overflow step drops. */
  function Evicted<T(!new)>(s: seq<T>, sz: nat, less: (T, T) -> bool): (e: T)
    requires 1 <= sz < |s|
    ensures e == s[sz] || (sz > 1 && e == s[sz - 1] && !less(s[sz - 1], s[sz]))
  {
    if DropsSibling(s, sz, less) then s[sz - 1] else s[sz]
  }

  // ---------------------------------------------------------------------
  // Permutation and frame facts

  lemma SwapPermutes<T(!new)>(s: seq<T>, i: nat, j: nat, n: nat)
    requires 1 <= i <= n && 1 <= j <= n && n < |s|
    ensures Live(Swap(s, i, j), n) == Live(s, n)
  {
    var u := s[1..n + 1];
    assert Swap(s, i, j)[1..n + 1] == u[i - 1 := u[j - 1]][j - 1 := u[i - 1]];
  }

  /**
   * Bubbling up from ci reorders the live slots 1..n and touches no slot
   * outside 1..ci.
   */
  lemma {:induction false} SiftUpPermutes<T(!new)>(s: seq<T>, n: nat, ci: nat, less: (T, T) -> bool)
    requires 1 <= ci <= n < |s|
    ensures Live(SiftUp(s, ci, less), n) == Live(s, n)
    ensures forall k | 0 <= k < |s| && (k == 0 || ci < k) :: SiftUp(s, ci, less)[k] == s[k]
    decreases ci
  {
    var pi := ci / 2;
    if pi > 0 && !less(s[pi], s[ci]) {
      SwapPermutes(s, ci, pi, n);
      SiftUpPermutes(Swap(s, ci, pi), n, pi, less);
    }
  }

  /**
   * Sinking down below `bound` reorders the slots 1..bound - 1 and touches
   * neither slot 0 nor any slot from `bound` on: the slot just vacated by
   * `pop` is never pulled back into the live region.
   */
  lemma {:induction false} SiftDownPermutes<T(!new)>(s: seq<T>, i: nat, bound: nat, less: (T, T) -> bool)
    requires 1 <= i <= bound < |s|
    ensures Live(SiftDown(s, i, bound, less), bound - 1) == Live(s, bound - 1)
    ensures forall k | 0 <= k < |s| && (k == 0 || bound <= k) :: SiftDown(s, i, bound, less)[k] == s[k]
    decreases bound - i
  {
    var m := Smallest(s, i, bound, less);
    if m != i {
      var t := Swap(s, i, m);
      SwapPermutes(s, i, m, bound - 1);
      SiftDownPermutes(t, m, bound, less);
      assert SiftDown(s, i, bound, less) == SiftDown(t, m, bound, less);
      forall k | 0 <= k < |s| && (k == 0 || bound <= k) ensures SiftDown(s, i, bound, less)[k] == s[k] {
        assert t[k] == s[k];
      }
    }
  }

  /**
   * Moving the last live element to the root, as `pop` does, removes exactly
   * one occurrence of the root's element from slots 1..n - 1.
   */
  lemma MoveLastToRoot<T(!new)>(s: seq<T>, n: nat)
    requires 1 <= n < |s|
    ensures Live(s[1 := s[n]], n - 1) == Live(s, n) - multiset{s[1]}
  {
    var t := s[1 := s[n]];
    if n == 1 {
      assert s[1..2] == [s[1]];
    } else {
      assert t[1..n] == [s[n]] + s[2..n];
      assert s[1..n + 1] == [s[1]] + s[2..n] + [s[n]];
    }
  }

  /**
   * The overflow step removes exactly one occurrence of the element it
   * drops, and that element was live.
   */
  lemma EvictRemovesOne<T(!new)>(s: seq<T>, sz: nat, less: (T, T) -> bool)
    requires 1 <= sz < |s|
    ensures Evicted(s, sz, less) in Live(s, sz)
    ensures Live(Evict(s, sz, less), sz - 1) == Live(s, sz) - multiset{Evicted(s, sz, less)}
  {
    assert s[1..sz + 1] == s[1..sz] + [s[sz]];
    if DropsSibling(s, sz, less) {
      assert s[1..sz] == s[1..sz - 1] + [s[sz - 1]];
      assert Evict(s, sz, less)[1..sz] == s[1..sz - 1] + [s[sz]];
    } else {
      assert Evict(s, sz, less)[1..sz] == s[1..sz];
    }
  }

  // ---------------------------------------------------------------------
  // Heap order

  /** Heap order on 1..n except between ci and its parent, whose element still ranks no later than ci's children. */
  ghost predicate HeapExceptUp<T(!new)>(s: seq<T>, n: nat, ci: nat, less: (T, T) -> bool) {
    && 1 <= ci <= n < |s|
    && (forall i :: 2 <= i <= n && i != ci ==> OrderedAt(s, i, less))
    && (ci >= 2 ==> forall i :: 2 <= i <= n && i / 2 == ci ==> !less(s[i], s[ci / 2]))
  }

  /** Heap order on 1..bound - 1 except between i and its children, which rank no earlier than i's parent. */
  ghost predicate HeapExceptDown<T(!new)>(s: seq<T>, bound: nat, i: nat, less: (T, T) -> bool) {
    && 1 <= i <= bound < |s|
    && (forall j :: 2 <= j < bound && j / 2 != i ==> OrderedAt(s, j, less))
    && (i >= 2 ==> forall j :: 2 <= j < bound && j / 2 == i ==> !less(s[j], s[i / 2]))
  }

  /** Writing a new element just past a heap leaves it a heap except at the new slot. */
  lemma AppendBreaksOnlyLast<T(!new)>(s: seq<T>, n: nat, v: T, less: (T, T) -> bool)
    requires IsHeap(s, n, less) && n + 1 < |s|
    ensures HeapExceptUp(s[n + 1 := v], n + 1, n + 1, less)
    ensures Live(s[n + 1 := v], n + 1) == Live(s, n) + multiset{v}
  {
    var t := s[n + 1 := v];
    forall i | 2 <= i <= n + 1 && i != n + 1 ensures OrderedAt(t, i, less) {
      assert OrderedAt(s, i, less);
    }
    assert t[1..n + 2] == s[1..n + 1] + [v];
  }

  /** Bubbling up restores heap order. */
  lemma {:induction false} SiftUpRestoresOrder<T(!new)>(s: seq<T>, n: nat, ci: nat, less: (T, T) -> bool)
    requires StrictWeakOrder(less)
    requires HeapExceptUp(s, n, ci, less)
    ensures IsHeap(SiftUp(s, ci, less), n, less)
    decreases ci
  {
    var pi := ci / 2;
    if pi > 0 && !less(s[pi], s[ci]) {
      var t := Swap(s, ci, pi);
      forall i | 2 <= i <= n && i != pi ensures OrderedAt(t, i, less) {
        if i == ci {
        } else if i / 2 == ci {
          assert !less(s[i], s[pi]);
        } else if i / 2 == pi {
          assert OrderedAt(s, i, less);
          NotLessTrans(less, s[ci], s[pi], s[i]);
        } else {
          assert OrderedAt(s, i, less);
        }
      }
      if pi >= 2 {
        assert OrderedAt(s, pi, less);
        forall i | 2 <= i <= n && i / 2 == pi ensures !less(t[i], t[pi / 2]) {
          if i != ci {
            assert OrderedAt(s, i, less);
            NotLessTrans(less, s[pi / 2], s[pi], s[i]);
          }
        }
      }
      SiftUpRestoresOrder(t, n, pi, less);
    } else {
      forall i | 2 <= i <= n ensures OrderedAt(s, i, less) {
        if i == ci {
          Asymmetric(less, s[pi], s[ci]);
        }
      }
    }
  }

  /**
   * The slot Smallest picks ranks no later than slot i and no later than
   * any child of i below the bound.
   */
  lemma SmallestRanksFirst<T(!new)>(s: seq<T>, i: nat, bound: nat, less: (T, T) -> bool)
    requires StrictWeakOrder(less)
    requires 1 <= i <= bound < |s|
    ensures var m := Smallest(s, i, bound, less);
      && !less(s[i], s[m])
      && (2 * i < bound ==> !less(s[2 * i], s[m]))
      && (2 * i + 1 < bound ==> !less(s[2 * i + 1], s[m]))
  {
    var l, r := 2 * i, 2 * i + 1;
    var m1 := if l < bound && !less(s[i], s[l]) then l else i;
    if r < bound && !less(s[m1], s[r]) {
      if m1 == l {
        NotLessTrans(less, s[r], s[l], s[i]);
      } else if l < bound {
        // i ranks before l and r ranks no later than i, so r ranks no later than l
        Asymmetric(less, s[i], s[l]);
        NotLessTrans(less, s[r], s[i], s[l]);
      }
    } else if r < bound {
      Asymmetric(less, s[m1], s[r]);
      if m1 == i && l < bound {
        Asymmetric(less, s[i], s[l]);
      }
    } else if m1 == i && l < bound {
      Asymmetric(less, s[i], s[l]);
    }
  }

  /** Sinking down from i restores heap order on 1..bound - 1. */
  lemma {:induction false} SiftDownRestoresOrder<T(!new)>(s: seq<T>, i: nat, bound: nat, less: (T, T) -> bool)
    requires StrictWeakOrder(less)
    requires HeapExceptDown(s, bound, i, less)
    ensures IsHeap(SiftDown(s, i, bound, less), bound - 1, less)
    decreases bound - i
  {
    var m := Smallest(s, i, bound, less);
    SmallestRanksFirst(s, i, bound, less);
    if m == i {
      forall j | 2 <= j < bound ensures OrderedAt(s, j, less) {
        if j / 2 == i {
          assert j == 2 * i || j == 2 * i + 1;
        }
      }
    } else {
      var t := Swap(s, i, m);
      assert m == 2 * i || m == 2 * i + 1;
      forall j | 2 <= j < bound && j / 2 != m ensures OrderedAt(t, j, less) {
        if j == i {
        } else if j / 2 == i {
          assert j == 2 * i || j == 2 * i + 1;
        } else {
          assert OrderedAt(s, j, less);
        }
      }
      forall j | 2 <= j < bound && j / 2 == m ensures !less(t[j], t[m / 2]) {
        assert OrderedAt(s, j, less);
      }
      SiftDownRestoresOrder(t, m, bound, less);
    }
  }

  /** Moving the last element to the root leaves a heap except below the root. */
  lemma MoveLastBreaksOnlyRoot<T(!new)>(s: seq<T>, n: nat, less: (T, T) -> bool)
    requires IsHeap(s, n, less) && 1 <= n
    ensures HeapExceptDown(s[1 := s[n]], n, 1, less)
  {
    var t := s[1 := s[n]];
    forall j | 2 <= j < n && j / 2 != 1 ensures OrderedAt(t, j, less) {
      assert OrderedAt(s, j, less);
    }
  }

  /**
   * The overflow step keeps heap order on the remaining slots: slot sz - 1
   * is then a leaf, and what it receives is not less than the parent it
   * shares with sz.
   */
  lemma EvictKeepsOrder<T(!new)>(s: seq<T>, sz: nat, less: (T, T) -> bool)
    requires IsHeap(s, sz, less) && 1 <= sz
    ensures IsHeap(Evict(s, sz, less), sz - 1, less)
  {
    var t := Evict(s, sz, less);
    forall j | 2 <= j <= sz - 1 ensures OrderedAt(t, j, less) {
      assert OrderedAt(s, j, less);
      if DropsSibling(s, sz, less) && j == sz - 1 {
        assert (sz - 1) / 2 == sz / 2;
        assert OrderedAt(s, sz, less);
      }
    }
  }

  /**
   * The overflow step drops the worse of the last two slots: the element
   * dropped never ranks before the one that stays in the pair, and never
   * before the parent the two slots share.
   */
  lemma EvictDropsWorseOfPair<T(!new)>(s: seq<T>, sz: nat, less: (T, T) -> bool)
    requires StrictWeakOrder(less) && IsHeap(s, sz, less) && 2 <= sz
    ensures sz % 2 != 0 ==> !less(Evicted(s, sz, less), Evict(s, sz, less)[sz - 1])
    ensures !less(Evicted(s, sz, less), s[sz / 2])
  {
    assert OrderedAt(s, sz, less);
    if !DropsSibling(s, sz, less) {
      Asymmetric(less, s[sz - 1], s[sz]);
    } else {
      assert OrderedAt(s, sz - 1, less);
      assert (sz - 1) / 2 == sz / 2;
    }
  }

  /** In heap order no element of slots 1..k's chain ranks before the root: slot k is not less than slot 1. */
  lemma {:induction false} RootRanksFirst<T(!new)>(s: seq<T>, n: nat, k: nat, less: (T, T) -> bool)
    requires StrictWeakOrder(less) && IsHeap(s, n, less) && 1 <= k <= n
    ensures !less(s[k], s[1])
    decreases k
  {
    if k > 1 {
      assert OrderedAt(s, k, less);
      RootRanksFirst(s, n, k / 2, less);
      NotLessTrans(less, s[1], s[k / 2], s[k]);
    }
  }

  /** The root of a non-empty heap is live and no live element is less than it. */
  lemma RootIsMinimum<T(!new)>(s: seq<T>, n: nat, less: (T, T) -> bool)
    requires StrictWeakOrder(less) && IsHeap(s, n, less) && 1 <= n
    ensures s[1] in Live(s, n)
    ensures forall x | x in Live(s, n) :: !less(x, s[1])
  {
    assert s[1..n + 1][0] == s[1];
    forall x | x in Live(s, n) ensures !less(x, s[1]) {
      var j :| 0 <= j < n && s[1..n + 1][j] == x;
      RootRanksFirst(s, n, j + 1, less);
    }
  }
}
