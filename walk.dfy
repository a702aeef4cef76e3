/**
 * Following `next` links through a fixed table. Sleb's bucket loops walk a
 * chain of page records this way; when every record they meet is full the
 * walk revisits a record within `|next| + 1` steps and then goes round the
 * same cycle for ever.
 */
module Walks {

  /** The record reached after `n` steps from `start`; an index outside the table stays put. */
  function Iterate(next: seq<int>, start: int, n: nat): int
  {
    if n == 0 then start
    else
      var p := Iterate(next, start, n - 1);
      if 0 <= p < |next| then next[p] else p
  }

  /** Every record met in the first `n` steps is in the table and full. */
  ghost predicate AllFull(next: seq<int>, full: seq<bool>, start: int, n: nat)
    requires |full| == |next|
  {
    forall k: nat :: k < n ==> 0 <= Iterate(next, start, k) < |next| && full[Iterate(next, start, k)]
  }

  /** `n + 1` values below `n` are not all distinct. */
  lemma {:induction false} Pigeonhole(f: seq<int>, n: nat)
    requires |f| == n + 1
    requires forall k :: 0 <= k < |f| ==> 0 <= f[k] < n
    ensures exists j, k :: 0 <= j < k < |f| && f[j] == f[k]
    decreases n
  {
    var last := f[n];
    if exists j :: 0 <= j < n && f[j] == last {
      var j :| 0 <= j < n && f[j] == last;
      assert f[j] == f[n];
    } else {
      // Squeeze the values other than `last` into `0 .. n - 1`.
      var g := seq(n, k requires 0 <= k < n => if f[k] > last then f[k] - 1 else f[k]);
      assert forall k :: 0 <= k < n ==> f[k] != last;
      Pigeonhole(g, n - 1);
      var j, k :| 0 <= j < k < |g| && g[j] == g[k];
      assert f[j] == f[k];
    }
  }

  /** Steps from two equal records stay equal. */
  lemma {:induction false} IterateShift(next: seq<int>, start: int, j: nat, k: nat, t: nat)
    requires Iterate(next, start, j) == Iterate(next, start, k)
    ensures Iterate(next, start, j + t) == Iterate(next, start, k + t)
  {
    if t > 0 {
      IterateShift(next, start, j, k, t - 1);
    }
  }

  /**
   * A walk whose first `|next| + 1` records are all in the table and full
   * meets only full records in the table, however long it runs.
   */
  lemma WalkCycles(next: seq<int>, full: seq<bool>, start: int)
    requires |full| == |next|
    requires AllFull(next, full, start, |next| + 1)
    ensures forall n: nat :: AllFull(next, full, start, n)
  {
    var m := |next|;
    var nodes := seq(m + 1, k requires 0 <= k < m + 1 => Iterate(next, start, k));
    Pigeonhole(nodes, m);
    var j, k :| 0 <= j < k < |nodes| && nodes[j] == nodes[k];
    forall n: nat ensures AllFull(next, full, start, n) {
      forall i: nat | i < n
        ensures 0 <= Iterate(next, start, i) < m && full[Iterate(next, start, i)]
      {
        CycleMember(next, full, start, j, k, i);
      }
    }
  }

  /** Once the walk has come back to an earlier record, every later record is one met before step `k`. */
  lemma {:induction false} CycleMember(next: seq<int>, full: seq<bool>, start: int, j: nat, k: nat, i: nat)
    requires |full| == |next| && j < k <= |next|
    requires AllFull(next, full, start, |next| + 1)
    requires Iterate(next, start, j) == Iterate(next, start, k)
    ensures 0 <= Iterate(next, start, i) < |next| && full[Iterate(next, start, i)]
    decreases i
  {
    if i >= k {
      var i' := i - (k - j);
      IterateShift(next, start, j, k, i - k);
      assert j + (i - k) == i';
      CycleMember(next, full, start, j, k, i');
    }
  }

  /** One step from a record in the table, then `n` more, is `n` steps from its successor. */
  lemma {:induction false} IterateFrom(next: seq<int>, start: int, n: nat)
    requires 0 <= start < |next|
    ensures Iterate(next, start, n + 1) == Iterate(next, next[start], n)
  {
    if n > 0 {
      IterateFrom(next, start, n - 1);
    }
  }

  /** A walk of `n + 1` full records is a full record followed by a walk of `n` from its successor. */
  lemma AllFullStep(next: seq<int>, full: seq<bool>, start: int, n: nat)
    requires |full| == |next| && 0 <= start < |next|
    ensures AllFull(next, full, start, n + 1) <==> full[start] && AllFull(next, full, next[start], n)
    ensures Iterate(next, start, n + 1) == Iterate(next, next[start], n)
  {
    forall k: nat | k <= n
      ensures Iterate(next, start, k + 1) == Iterate(next, next[start], k)
    {
      IterateFrom(next, start, k);
    }
    if full[start] && AllFull(next, full, next[start], n) {
      forall k: nat | k < n + 1
        ensures 0 <= Iterate(next, start, k) < |next| && full[Iterate(next, start, k)]
      {
        if k > 0 {
          assert Iterate(next, start, (k - 1) + 1) == Iterate(next, next[start], k - 1);
        }
      }
    }
    if AllFull(next, full, start, n + 1) {
      assert 0 <= Iterate(next, start, 0) < |next| && full[Iterate(next, start, 0)];
      forall k: nat | k < n
        ensures 0 <= Iterate(next, next[start], k) < |next| && full[Iterate(next, next[start], k)]
      {
        assert Iterate(next, start, k + 1) == Iterate(next, next[start], k);
      }
    }
  }
}
