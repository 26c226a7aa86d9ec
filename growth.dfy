/**
 * Storage growth of an unbounded queue.
 *
 * When a push fills the last slot of an unbounded queue's storage, the
 * source assigns `length >>>= 2` to its array: an unsigned shift right by
 * two, which truncates the array to a quarter of its length and discards
 * every slot from there on, live or not. The queue model grows its storage
 * by doubling instead (PriorityQueues.PriorityQueue.Grow); this module
 * states the truncation as written and what it loses.
 */
module Growth {
  import opened Heap

  /** The array length after `length >>>= 2`, for a length below 2^32. */
  function TruncatedLength(len: nat): (r: nat)
    requires len < 0x1_0000_0000
    ensures 4 * r <= len < 4 * r + 4
  {
    len / 4
  }

  /** The storage left after the truncation: its first quarter. */
  function Truncated<T>(s: seq<T>): (r: seq<T>)
    requires |s| < 0x1_0000_0000
    ensures |r| == TruncatedLength(|s|)
    ensures forall k | 0 <= k < |r| :: r[k] == s[k]
  {
    s[..|s| / 4]
  }

  /**
   * `getAll` as written, `slice(1, n + 1)`: JavaScript clamps both ends of
   * a slice to the array's length.
   */
  function SliceLive<T(!new)>(s: seq<T>, n: nat): (r: seq<T>)
    ensures |r| == (if n + 1 <= |s| then n else if |s| >= 1 then |s| - 1 else 0)
    ensures n < |s| ==> multiset(r) == Live(s, n)
  {
    var lo := if 1 <= |s| then 1 else |s|;
    var hi := if n + 1 <= |s| then n + 1 else |s|;
    s[lo..hi]
  }

  /**
   * The truncation happens right after a push has filled slot |s| - 1, so
   * the queue then counts n = |s| - 1 live elements. The truncated storage
   * no longer reaches slot n, so its live region is undefined and `getAll`
   * returns only |s| / 4 - 1 of the n elements. What is lost is exactly the
   * live elements of slots |s| / 4..n, and there is at least one.
   */
  lemma TruncationLosesLiveSlots<T(!new)>(s: seq<T>)
    requires 4 <= |s| < 0x1_0000_0000
    ensures var n := |s| - 1;
      && |Truncated(s)| <= n
      && |SliceLive(Truncated(s), n)| == |s| / 4 - 1 < n
      && multiset(SliceLive(Truncated(s), n)) + multiset(s[|s| / 4..n + 1]) == Live(s, n)
      && multiset(s[|s| / 4..n + 1]) != multiset{}
  {
    var n, q := |s| - 1, |s| / 4;
    assert SliceLive(Truncated(s), n) == s[1..q];
    assert s[1..n + 1] == s[1..q] + s[q..n + 1];
    assert s[n] in multiset(s[q..n + 1]) by {
      assert s[q..n + 1][n - q] == s[n];
    }
  }

  /**
   * With the default storage of 32 slots, the 31st push leaves 8 slots:
   * `getAll` then returns 7 of the 31 live elements, and the 24 in slots
   * 8..31 are gone.
   */
  lemma DefaultStorageTruncation<T(!new)>(s: seq<T>)
    requires |s| == 32
    ensures |Truncated(s)| == 8
    ensures |SliceLive(Truncated(s), 31)| == 7
    ensures multiset(SliceLive(Truncated(s), 31)) + multiset(s[8..32]) == Live(s, 31)
    ensures |multiset(s[8..32])| == 24
  {
    TruncationLosesLiveSlots(s);
  }
}
