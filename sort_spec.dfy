/**
 * Specification of sorting for the in-place sorts of the visualizer:
 * what "sorted" means, the inversion count that bounds bubble sort,
 * the stable two-run merge that `merge` computes, and the facts about
 * these that the sorts' proofs use.
 */
module SortSpec {

  /** Non-descending order. */
  ghost predicate Sorted(s: seq<int>) {
    forall i, j :: 0 <= i < j < |s| ==> s[i] <= s[j]
  }

  /** Every adjacent pair is in order: what a bubble-sort pass without a swap observes. */
  ghost predicate AdjacentSorted(s: seq<int>) {
    forall k :: 0 <= k < |s| - 1 ==> s[k] <= s[k + 1]
  }

  /** Every element is strictly below `v`. */
  ghost predicate AllBelow(s: seq<int>, v: int) {
    forall k :: 0 <= k < |s| ==> s[k] < v
  }

  /** Every element is at least `v`. */
  ghost predicate AllAtLeast(s: seq<int>, v: int) {
    forall k :: 0 <= k < |s| ==> v <= s[k]
  }

  /** `s` with the elements at `i` and `j` exchanged. */
  function Swapped(s: seq<int>, i: nat, j: nat): seq<int>
    requires i < |s| && j < |s|
  {
    s[i := s[j]][j := s[i]]
  }

  lemma SwapKeepsMultiset(s: seq<int>, i: nat, j: nat)
    requires i < |s| && j < |s|
    ensures multiset(Swapped(s, i, j)) == multiset(s)
  {
  }

  /** How many elements of `s` are strictly below `x`. */
  function CountBelow(x: int, s: seq<int>): nat {
    if s == [] then 0 else (if s[0] < x then 1 else 0) + CountBelow(x, s[1..])
  }

  /** The number of pairs i < j with s[i] > s[j]. */
  function Inversions(s: seq<int>): nat {
    if s == [] then 0 else CountBelow(s[0], s[1..]) + Inversions(s[1..])
  }

  /**
   * The stable merge of two runs: on a tie the element of the left run
   * comes first.
   */
  function Merged(left: seq<int>, right: seq<int>): (r: seq<int>)
    ensures |r| == |left| + |right|
    decreases |left| + |right|
  {
    if left == [] then right
    else if right == [] then left
    else if left[0] <= right[0] then [left[0]] + Merged(left[1..], right)
    else [right[0]] + Merged(left, right[1..])
  }

  /** The merge holds exactly the elements of both runs. */
  lemma {:induction false} MergedPermutes(left: seq<int>, right: seq<int>)
    ensures multiset(Merged(left, right)) == multiset(left) + multiset(right)
    decreases |left| + |right|
  {
    if left != [] && right != [] {
      if left[0] <= right[0] {
        var rest := Merged(left[1..], right);
        assert Merged(left, right) == [left[0]] + rest;
        assert multiset(Merged(left, right)) == multiset([left[0]]) + multiset(rest);
        MergedPermutes(left[1..], right);
        assert multiset(left) == multiset([left[0]]) + multiset(left[1..]) by {
          assert left == [left[0]] + left[1..];
        }
      } else {
        var rest := Merged(left, right[1..]);
        assert Merged(left, right) == [right[0]] + rest;
        assert multiset(Merged(left, right)) == multiset([right[0]]) + multiset(rest);
        MergedPermutes(left, right[1..]);
        assert multiset(right) == multiset([right[0]]) + multiset(right[1..]) by {
          assert right == [right[0]] + right[1..];
        }
      }
    }
  }

  /** Merging two sorted runs gives a sorted sequence. */
  lemma {:induction false} MergedSorted(left: seq<int>, right: seq<int>)
    requires Sorted(left) && Sorted(right)
    ensures Sorted(Merged(left, right))
    decreases |left| + |right|
  {
    if left != [] && right != [] {
      if left[0] <= right[0] {
        var rest := Merged(left[1..], right);
        MergedSorted(left[1..], right);
        MergedPermutes(left[1..], right);
        LeadsAll(left[0], left[1..], right, rest);
      } else {
        var rest := Merged(left, right[1..]);
        MergedSorted(left, right[1..]);
        MergedPermutes(left, right[1..]);
        LeadsAll(right[0], left, right[1..], rest);
      }
    }
  }

  /** Read positions into the left run `s[..m]` and the right run `s[m..h]` of a merge. */
  datatype Cursor = Cursor(i: nat, j: nat)

  /** The runs `s[c.i..m]` and `s[c.j..h]` that remain to be merged lie inside `s`. */
  ghost predicate InRuns(s: seq<int>, c: Cursor, m: nat, h: nat) {
    c.i <= m <= |s| && c.j <= h <= |s|
  }

  /**
   * The merge takes the head of the left run next when the right run is used
   * up or its head is not smaller: ties go to the left run.
   */
  ghost predicate TakesLeft(s: seq<int>, c: Cursor, m: nat, h: nat)
    requires InRuns(s, c, m, h)
  {
    c.i < m && (c.j == h || s[c.i] <= s[c.j])
  }

  /** The element the merge takes next. */
  ghost function Picked(s: seq<int>, c: Cursor, m: nat, h: nat): int
    requires InRuns(s, c, m, h) && (c.i < m || c.j < h)
  {
    if TakesLeft(s, c, m, h) then s[c.i] else s[c.j]
  }

  /** The read positions after one step: the run whose head was taken moves on. */
  ghost function Next(s: seq<int>, c: Cursor, m: nat, h: nat): (r: Cursor)
    requires InRuns(s, c, m, h) && (c.i < m || c.j < h)
    ensures InRuns(s, r, m, h)
    ensures r == Cursor(c.i + 1, c.j) || r == Cursor(c.i, c.j + 1)
  {
    if TakesLeft(s, c, m, h) then Cursor(c.i + 1, c.j) else Cursor(c.i, c.j + 1)
  }

  /**
   * A run of the merge from `trace[0]` to the end: each entry is the read
   * positions one step after the previous one, and the last has both runs used up.
   */
  ghost predicate IsTrace(s: seq<int>, m: nat, h: nat, trace: seq<Cursor>) {
    && |trace| >= 1
    && (forall t :: 0 <= t < |trace| ==> InRuns(s, trace[t], m, h))
    && trace[|trace| - 1] == Cursor(m, h)
    && forall t :: 0 <= t < |trace| - 1 ==>
         (trace[t].i < m || trace[t].j < h) && trace[t + 1] == Next(s, trace[t], m, h)
  }

  /** From any read positions the merge runs to its end. */
  lemma {:induction false} TraceFrom(s: seq<int>, c: Cursor, m: nat, h: nat) returns (trace: seq<Cursor>)
    requires InRuns(s, c, m, h)
    ensures IsTrace(s, m, h, trace) && trace[0] == c
    decreases (m - c.i) + (h - c.j)
  {
    if c.i == m && c.j == h {
      trace := [c];
    } else {
      var rest := TraceFrom(s, Next(s, c, m, h), m, h);
      trace := [c] + rest;
      assert forall t :: 1 <= t < |trace| ==> trace[t] == rest[t - 1];
    }
  }

  /** A run of the merge takes one step per remaining element. */
  lemma {:induction false} TraceLength(s: seq<int>, m: nat, h: nat, trace: seq<Cursor>)
    requires IsTrace(s, m, h, trace)
    ensures |trace| - 1 == (m - trace[0].i) + (h - trace[0].j)
    decreases |trace|
  {
    if |trace| > 1 {
      assert IsTrace(s, m, h, trace[1..]) by {
        assert forall t :: 0 <= t < |trace| - 1 ==> trace[1..][t] == trace[t + 1];
      }
      TraceLength(s, m, h, trace[1..]);
    }
  }

  /** Once the left run is used up, each step takes the next cell of the right run. */
  lemma {:induction false} TraceLeftUsedUp(s: seq<int>, m: nat, h: nat, trace: seq<Cursor>, p: nat, q: nat)
    requires IsTrace(s, m, h, trace) && p <= q < |trace| && trace[p].i == m
    ensures trace[q] == Cursor(m, trace[p].j + (q - p))
    decreases q - p
  {
    if p < q {
      TraceLeftUsedUp(s, m, h, trace, p, q - 1);
      assert trace[q] == Next(s, trace[q - 1], m, h);
    }
  }

  /** One step of the merge: what is taken heads the merge, and the rest is the merge of what remains. */
  lemma MergedSteps(s: seq<int>, c: Cursor, m: nat, h: nat)
    requires InRuns(s, c, m, h) && (c.i < m || c.j < h)
    ensures Merged(s[c.i..m], s[c.j..h]) ==
      [Picked(s, c, m, h)] + Merged(s[Next(s, c, m, h).i..m], s[Next(s, c, m, h).j..h])
  {
    if c.i < m {
      assert s[c.i..m] == [s[c.i]] + s[c.i + 1..m];
    }
    if c.j < h {
      assert s[c.j..h] == [s[c.j]] + s[c.j + 1..h];
    }
  }

  /** The element taken at step `n` of a run of the merge is element `n` of the merge. */
  lemma {:induction false} TracePicksMerged(s: seq<int>, m: nat, h: nat, trace: seq<Cursor>, n: nat)
    requires IsTrace(s, m, h, trace) && n < |trace| - 1
    ensures |trace| - 1 == (m - trace[0].i) + (h - trace[0].j)
    ensures Picked(s, trace[n], m, h) == Merged(s[trace[0].i..m], s[trace[0].j..h])[n]
    decreases n
  {
    MergedSteps(s, trace[0], m, h);
    var rest := trace[1..];
    assert IsTrace(s, m, h, rest) by {
      assert forall t :: 0 <= t < |rest| ==> rest[t] == trace[t + 1];
    }
    TraceLength(s, m, h, trace);
    if n > 0 {
      TracePicksMerged(s, m, h, rest, n - 1);
    }
  }

  /**
   * The state of an in-place merge of `original[low..m]` and
   * `original[m..h]` along the run `trace`: `cur[low..k]` holds the first
   * elements the merge takes, the read positions are `trace[k - low]`, and
   * every other cell is as in `original`.
   */
  ghost predicate MergeState(cur: seq<int>, original: seq<int>, trace: seq<Cursor>,
                             low: int, m: int, h: int, i: int, j: int, k: int)
  {
    && 0 <= low <= i <= m <= j <= h <= |cur| == |original| && k == i + j - m
    && IsTrace(original, m, h, trace) && |trace| == h - low + 1
    && Cursor(i, j) == trace[k - low]
    && (forall t :: low <= t < k ==> cur[t] == Picked(original, trace[t - low], m, h))
    && (forall t :: 0 <= t < |cur| && !(low <= t < k) ==> cur[t] == original[t])
  }

  /** Before the first step nothing is written and the read positions are the runs' starts. */
  lemma MergeStateStart(original: seq<int>, low: nat, m: nat, h: nat) returns (trace: seq<Cursor>)
    requires low <= m <= h <= |original|
    ensures MergeState(original, original, trace, low, m, h, low, m, low)
    ensures trace[0] == Cursor(low, m)
  {
    trace := TraceFrom(original, Cursor(low, m), m, h);
    TraceLength(original, m, h, trace);
  }

  /** Writing the element the merge takes next at `k` moves the state one step along the run. */
  lemma MergeStateStep(cur: seq<int>, original: seq<int>, trace: seq<Cursor>,
                       low: int, m: int, h: int, i: int, j: int, k: int)
    requires MergeState(cur, original, trace, low, m, h, i, j, k) && (i < m || j < h)
    ensures k < |cur| && trace[k - low + 1] == Next(original, Cursor(i, j), m, h)
    ensures MergeState(cur[k := Picked(original, Cursor(i, j), m, h)], original, trace,
                       low, m, h, trace[k - low + 1].i, trace[k - low + 1].j, k + 1)
  {
    assert trace[k - low + 1] == Next(original, trace[k - low], m, h);
  }

  /**
   * Once the left run is used up, the write position has reached the right
   * run's read position, the rest of the right run is already in place, and
   * the range holds the whole merge.
   */
  lemma MergeStateDone(cur: seq<int>, original: seq<int>, trace: seq<Cursor>,
                       low: int, m: int, h: int, j: int, k: int)
    requires MergeState(cur, original, trace, low, m, h, m, j, k) && trace[0] == Cursor(low, m)
    ensures cur[low..h] == Merged(original[low..m], original[m..h])
    ensures cur[..low] == original[..low] && cur[h..] == original[h..]
  {
    var whole := Merged(original[low..m], original[m..h]);
    assert |whole| == h - low;
    forall t | low <= t < h
      ensures cur[t] == whole[t - low]
    {
      TracePicksMerged(original, m, h, trace, t - low);
      if t >= k {
        TraceLeftUsedUp(original, m, h, trace, k - low, t - low);
      }
    }
    AgreeOutside(cur, original, low, h);
  }

  /**
   * If `x` is at most every element of two sorted runs `a` and `b`,
   * and `rest` is a sorted arrangement of their union, then `x` may lead it.
   */
  lemma LeadsAll(x: int, a: seq<int>, b: seq<int>, rest: seq<int>)
    requires multiset(rest) == multiset(a) + multiset(b)
    requires forall k :: 0 <= k < |a| ==> x <= a[k]
    requires forall k :: 0 <= k < |b| ==> x <= b[k]
    requires Sorted(rest)
    ensures Sorted([x] + rest)
  {
    forall k | 0 <= k < |rest|
      ensures x <= rest[k]
    {
      assert rest[k] in multiset(rest);
      if rest[k] in multiset(a) {
        var m :| 0 <= m < |a| && a[m] == rest[k];
      } else {
        assert rest[k] in multiset(b);
        var m :| 0 <= m < |b| && b[m] == rest[k];
      }
    }
  }

  /** Adjacent order is enough for order: the exit condition of bubble sort. */
  lemma {:induction false} AdjacentSortedIsSorted(s: seq<int>)
    requires AdjacentSorted(s)
    ensures Sorted(s)
  {
    if |s| > 1 {
      AdjacentSortedIsSorted(s[1..]);
      forall j | 1 <= j < |s|
        ensures s[0] <= s[j]
      {
        assert s[0] <= s[1];
        if j > 1 {
          assert s[1..][0] <= s[1..][j - 1];
        }
      }
    }
  }

  lemma {:induction false} CountBelowZero(x: int, s: seq<int>)
    ensures CountBelow(x, s) == 0 <==> AllAtLeast(s, x)
  {
    if s != [] {
      CountBelowZero(x, s[1..]);
      assert forall k :: 1 <= k < |s| ==> s[k] == s[1..][k - 1];
    }
  }

  /** A sequence is sorted exactly when it has no inversion. */
  lemma {:induction false} SortedIffNoInversions(s: seq<int>)
    ensures Sorted(s) <==> Inversions(s) == 0
  {
    if s != [] {
      SortedIffNoInversions(s[1..]);
      CountBelowZero(s[0], s[1..]);
      assert forall k :: 1 <= k < |s| ==> s[k] == s[1..][k - 1];
      if Inversions(s) == 0 {
        assert Sorted(s[1..]) && AllAtLeast(s[1..], s[0]);
      }
    }
  }

  /** Exchanging two adjacent elements does not change how many elements lie below `x`. */
  lemma {:induction false} CountBelowSwapAdjacent(x: int, s: seq<int>, i: nat)
    requires i + 1 < |s|
    ensures CountBelow(x, Swapped(s, i, i + 1)) == CountBelow(x, s)
  {
    var t := Swapped(s, i, i + 1);
    if i == 0 {
      assert t[1..][1..] == s[1..][1..];
    } else {
      assert t[1..] == Swapped(s[1..], i - 1, i);
      CountBelowSwapAdjacent(x, s[1..], i - 1);
    }
  }

  /**
   * Exchanging an adjacent out-of-order pair removes exactly one
   * inversion: each swap of bubble sort makes progress.
   */
  lemma {:induction false} SwapAdjacentRemovesInversion(s: seq<int>, i: nat)
    requires i + 1 < |s| && s[i] > s[i + 1]
    ensures Inversions(Swapped(s, i, i + 1)) + 1 == Inversions(s)
  {
    var t := Swapped(s, i, i + 1);
    if i == 0 {
      var tail := s[2..];
      assert s[1..] == [s[1]] + tail && t[1..] == [s[0]] + tail;
      assert s[1..][1..] == tail && t[1..][1..] == tail;
    } else {
      assert t[0] == s[0];
      assert t[1..] == Swapped(s[1..], i - 1, i);
      CountBelowSwapAdjacent(s[0], s[1..], i - 1);
      SwapAdjacentRemovesInversion(s[1..], i - 1);
    }
  }

  /**
   * A sorted sequence is determined by its multiset: any two sorts of
   * the same input give the same output.
   */
  lemma {:induction false} SortedPermutationUnique(s: seq<int>, t: seq<int>)
    requires Sorted(s) && Sorted(t)
    requires multiset(s) == multiset(t)
    ensures s == t
  {
    assert |s| == |multiset(s)| == |multiset(t)| == |t|;
    if s != [] {
      SortedHeadsAgree(s, t);
      TailMultiset(s);
      TailMultiset(t);
      SortedPermutationUnique(s[1..], t[1..]);
      assert s == [s[0]] + s[1..] && t == [t[0]] + t[1..];
    }
  }

  /** Two sorted arrangements of one multiset start with the same (least) element. */
  lemma SortedHeadsAgree(s: seq<int>, t: seq<int>)
    requires Sorted(s) && Sorted(t) && s != [] && t != []
    requires multiset(s) == multiset(t)
    ensures s[0] == t[0]
  {
    assert s[0] in multiset(t);
    assert t[0] in multiset(s);
    var m :| 0 <= m < |t| && t[m] == s[0];
    var n :| 0 <= n < |s| && s[n] == t[0];
    assert s[0] <= s[n] && t[0] <= t[m];
  }

  lemma TailMultiset(s: seq<int>)
    requires s != []
    ensures multiset(s[1..]) == multiset(s) - multiset{s[0]}
  {
    assert s == [s[0]] + s[1..];
  }

  /** An arrangement of a sequence keeps every element below the same strict bound. */
  lemma PermutationKeepsBelow(s: seq<int>, t: seq<int>, v: int)
    requires multiset(s) == multiset(t) && AllBelow(s, v)
    ensures AllBelow(t, v)
  {
    forall k | 0 <= k < |t|
      ensures t[k] < v
    {
      assert t[k] in multiset(s);
      var m :| 0 <= m < |s| && s[m] == t[k];
    }
  }

  /** An arrangement of a sequence keeps every element at or above the same bound. */
  lemma PermutationKeepsAtLeast(s: seq<int>, t: seq<int>, v: int)
    requires multiset(s) == multiset(t) && AllAtLeast(s, v)
    ensures AllAtLeast(t, v)
  {
    forall k | 0 <= k < |t|
      ensures v <= t[k]
    {
      assert t[k] in multiset(s);
      var m :| 0 <= m < |s| && s[m] == t[k];
    }
  }

  /** Two sorted runs separated by a pivot form a sorted sequence: the quicksort step. */
  lemma JoinAroundPivot(left: seq<int>, pivot: int, right: seq<int>)
    requires Sorted(left) && Sorted(right)
    requires AllBelow(left, pivot) && AllAtLeast(right, pivot)
    ensures Sorted(left + [pivot] + right)
  {
    var s := left + [pivot] + right;
    forall i, j | 0 <= i < j < |s|
      ensures s[i] <= s[j]
    {
      if j < |left| {
      } else if i < |left| {
        if j > |left| { assert s[j] == right[j - |left| - 1]; }
      } else if i > |left| {
        assert s[i] == right[i - |left| - 1] && s[j] == right[j - |left| - 1];
      } else {
        assert s[j] == right[j - |left| - 1];
      }
    }
  }

  /** Sequences equal at every index outside `[lo, hi)` have equal prefix and suffix around it. */
  lemma AgreeOutside(s: seq<int>, t: seq<int>, lo: nat, hi: nat)
    requires lo <= hi <= |s| == |t|
    requires forall k :: 0 <= k < |s| && !(lo <= k < hi) ==> s[k] == t[k]
    ensures s[..lo] == t[..lo] && s[hi..] == t[hi..]
  {
    assert forall k :: 0 <= k < |s| - hi ==> s[hi..][k] == s[hi + k] && t[hi..][k] == t[hi + k];
  }

  /**
   * Two sequences that agree outside `[lo, hi)` and hold the same multiset
   * hold the same multiset inside `[lo, hi)` too.
   */
  lemma RangePermutation(s: seq<int>, t: seq<int>, lo: nat, hi: nat)
    requires lo <= hi <= |s| == |t|
    requires multiset(s) == multiset(t)
    requires s[..lo] == t[..lo] && s[hi..] == t[hi..]
    ensures multiset(s[lo..hi]) == multiset(t[lo..hi])
  {
    ThreeWayMultiset(s, lo, hi);
    ThreeWayMultiset(t, lo, hi);
    var outside := multiset(s[..lo]) + multiset(s[hi..]);
    assert multiset(s) == multiset(s[lo..hi]) + outside;
    assert multiset(t) == multiset(t[lo..hi]) + outside;
    forall x
      ensures multiset(s[lo..hi])[x] == multiset(t[lo..hi])[x]
    {
      assert multiset(s)[x] == multiset(t)[x];
    }
  }

  /** The multiset of a sequence splits at two cut points. */
  lemma ThreeWayMultiset(s: seq<int>, lo: nat, hi: nat)
    requires lo <= hi <= |s|
    ensures multiset(s) == multiset(s[..lo]) + multiset(s[lo..hi]) + multiset(s[hi..])
  {
    assert s == s[..lo] + s[lo..hi] + s[hi..];
  }
}
