/**
 * The sort engine of the visualizer: five in-place sorts over the shared
 * integer array, each proved to leave it in non-descending order as a
 * permutation of what it held.
 */
module SortEngine {
  import opened SortSpec
  import opened Algorithms

  class SortAlgorithm {
    /** The shared array the visualizer draws and the sorts rearrange. */
    const values: array<int>

    constructor (values: array<int>)
      ensures this.values == values
    {
      this.values := values;
    }

    /**
     * Repeated left-to-right passes swapping adjacent out-of-order pairs,
     * until a pass swaps nothing. The ghost results count the passes and
     * the swaps: every swap removes exactly one inversion, so there are as
     * many swaps as the input has inversions, and an input already in
     * order takes a single pass and is left as it was.
     */
    method BubbleSort() returns (ghost passes: nat, ghost swaps: nat)
      modifies values
      ensures Sorted(values[..])
      ensures multiset(values[..]) == old(multiset(values[..]))
      ensures swaps == Inversions(old(values[..]))
      ensures passes >= 1 && (swaps == 0 ==> passes == 1)
      ensures Sorted(old(values[..])) ==> passes == 1 && values[..] == old(values[..])
    {
      var n := values.Length;
      passes, swaps := 0, 0;
      var swapped := true;
      while swapped
        invariant multiset(values[..]) == old(multiset(values[..]))
        invariant Inversions(values[..]) + swaps == Inversions(old(values[..]))
        invariant swaps == 0 ==> values[..] == old(values[..])
        invariant !swapped ==> AdjacentSorted(values[..])
        invariant if swapped then swaps >= passes else passes >= 1 && swaps + 1 >= passes
        decreases Inversions(values[..]) + (if swapped then 1 else 0)
      {
        swapped := false;
        ghost var swapsBefore := swaps;
        var i := 0;
        while i < n - 1
          invariant 0 <= i <= if n == 0 then 0 else n - 1
          invariant multiset(values[..]) == old(multiset(values[..]))
          invariant Inversions(values[..]) + swaps == Inversions(old(values[..]))
          invariant swaps == 0 ==> values[..] == old(values[..])
          invariant swapped <==> swaps > swapsBefore
          invariant swaps >= swapsBefore
          invariant !swapped ==> forall k :: 0 <= k < i ==> values[k] <= values[k + 1]
        {
          if values[i] > values[i + 1] {
            ghost var before := values[..];
            Swap(i, i + 1);
            SwapAdjacentRemovesInversion(before, i);
            SwapKeepsMultiset(before, i, i + 1);
            swaps := swaps + 1;
            swapped := true;
          }
          i := i + 1;
        }
        passes := passes + 1;
      }
      AdjacentSortedIsSorted(values[..]);
      SortedIffNoInversions(values[..]);
      SortedIffNoInversions(old(values[..]));
    }

    /**
     * The inner loop of selection sort: the index of the first minimum of
     * `values[from..]`.
     */
    method IndexOfMinimum(from: int) returns (m: int)
      requires 0 <= from < values.Length
      ensures from <= m < values.Length
      ensures forall k :: from <= k < values.Length ==> values[m] <= values[k]
      ensures forall k :: from <= k < m ==> values[m] < values[k]
    {
      m := from;
      var j := from + 1;
      while j < values.Length
        invariant from <= m < j <= values.Length
        invariant forall k :: from <= k < j ==> values[m] <= values[k]
        invariant forall k :: from <= k < m ==> values[m] < values[k]
      {
        if values[j] < values[m] {
          m := j;
        }
        j := j + 1;
      }
    }

    /**
     * For each position but the last, swap the minimum of the rest into it.
     * After step `i` the prefix `values[..i]` is sorted and holds no element
     * above any element of the suffix.
     */
    method SelectionSort()
      modifies values
      ensures Sorted(values[..])
      ensures multiset(values[..]) == old(multiset(values[..]))
    {
      var n := values.Length;
      var i := 0;
      while i < n - 1
        invariant SelectedPrefix(values[..], i)
        invariant multiset(values[..]) == old(multiset(values[..]))
      {
        var minIndex := IndexOfMinimum(i);
        SelectionStep(values[..], i, minIndex);
        Swap(minIndex, i);
        i := i + 1;
      }
      SelectionDone(values[..], i);
    }

    /**
     * Shift-based insertion: for each `i`, the elements of the sorted
     * prefix greater than `values[i]` move one place right and the key
     * drops into the gap.
     */
    method InsertionSort()
      modifies values
      ensures Sorted(values[..])
      ensures multiset(values[..]) == old(multiset(values[..]))
    {
      var n := values.Length;
      var i := 1;
      while i < n
        invariant 1 <= i
        invariant SortedPrefix(values[..], i)
        invariant multiset(values[..]) == old(multiset(values[..]))
      {
        ghost var prior := values[..];
        var key := values[i];
        var j := i - 1;
        while j >= 0 && values[j] > key
          invariant Shifting(values[..], prior, i, j)
        {
          ShiftStep(values[..], prior, i, j);
          values[j + 1] := values[j];
          j := j - 1;
        }
        InsertedAt(values[..], prior, i, j);
        values[j + 1] := key;
        i := i + 1;
      }
      SortedPrefixIsSorted(values[..], i);
    }

    /** Exchanges two cells through a temporary, as each sort does inline. */
    method Swap(i: int, j: int)
      requires 0 <= i < values.Length && 0 <= j < values.Length
      modifies values
      ensures values[..] == Swapped(old(values[..]), i, j)
    {
      var temp := values[i];
      values[i] := values[j];
      values[j] := temp;
    }

    /**
     * Top-down merge sort of `values[low..high]` (both ends included):
     * sorts the two halves around the midpoint, then merges them.
     */
    method MergeSort(low: int, high: int)
      requires 0 <= low <= high + 1 <= values.Length
      modifies values
      ensures Sorted(values[low..high + 1])
      ensures multiset(values[low..high + 1]) == old(multiset(values[low..high + 1]))
      ensures values[..low] == old(values[..low]) && values[high + 1..] == old(values[high + 1..])
      ensures high <= low ==> values[..] == old(values[..])
      decreases high + 1 - low
    {
      if low < high {
        var mid := (low + high) / 2;
        ghost var start := values[..];
        MergeSort(low, mid);
        ghost var leftDone := values[..];
        MergeSort(mid + 1, high);
        ghost var rightDone := values[..];
        PrefixSlice(rightDone, leftDone, low, mid + 1);
        Merge(low, mid, high);
        MergedSorted(rightDone[low..mid + 1], rightDone[mid + 1..high + 1]);
        MergedPermutes(rightDone[low..mid + 1], rightDone[mid + 1..high + 1]);
        MergeSortStep(start, leftDone, rightDone, values[..], low, mid, high);
      }
    }

    /**
     * Merges the runs `values[low..mid]` and `values[mid+1..high]` through a
     * temporary copy of the range. Only the left run's leftover is copied
     * back at the end: once the left run is used up, the write position has
     * caught up with the right run's read position, so what is left of the
     * right run is already in place.
     */
    method Merge(low: int, mid: int, high: int)
      requires 0 <= low <= mid <= high < values.Length
      modifies values
      ensures values[low..high + 1] == Merged(old(values[low..mid + 1]), old(values[mid + 1..high + 1]))
      ensures values[..low] == old(values[..low]) && values[high + 1..] == old(values[high + 1..])
    {
      ghost var original := values[..];
      var temp := CopyRange(low, high);
      ghost var m, h := mid + 1, high + 1;
      ghost var trace := MergeStateStart(original, low, m, h);

      var i, j, k := MergeHeads(temp, low, mid, high, original, trace);
      i, k := CopyLeftRest(temp, low, mid, high, original, trace, i, j, k);
      MergeStateDone(values[..], original, trace, low, m, h, j, k);
    }

    /** The copy that starts the merge: a fresh array holding `values[low..high]` at the same indices. */
    method CopyRange(low: int, high: int) returns (temp: array<int>)
      requires 0 <= low <= high < values.Length
      ensures fresh(temp) && temp.Length == values.Length
      ensures forall u :: low <= u <= high ==> temp[u] == values[u]
    {
      temp := new int[values.Length];
      for t := low to high + 1
        invariant forall u :: low <= u < t ==> temp[u] == values[u]
      {
        temp[t] := values[t];
      }
    }

    /** The first loop of the merge: takes the smaller head while both runs have elements. */
    method MergeHeads(temp: array<int>, low: int, mid: int, high: int, ghost original: seq<int>, ghost trace: seq<Cursor>)
        returns (i: int, j: int, k: int)
      requires temp != values && temp.Length == values.Length
      requires MergeState(values[..], original, trace, low, mid + 1, high + 1, low, mid + 1, low)
      requires forall u :: low <= u <= high ==> temp[u] == original[u]
      modifies values
      ensures MergeState(values[..], original, trace, low, mid + 1, high + 1, i, j, k)
      ensures i > mid || j > high
    {
      ghost var m, h := mid + 1, high + 1;
      i, j, k := low, mid + 1, low;
      while i <= mid && j <= high
        modifies values
        invariant MergeState(values[..], original, trace, low, m, h, i, j, k)
      {
        MergeStateStep(values[..], original, trace, low, m, h, i, j, k);
        if temp[i] <= temp[j] {
          values[k] := temp[i];
          k, i := k + 1, i + 1;
        } else {
          values[k] := temp[j];
          k, j := k + 1, j + 1;
        }
      }
    }

    /** The second loop of the merge: copies what is left of the left run. */
    method CopyLeftRest(temp: array<int>, low: int, mid: int, high: int, ghost original: seq<int>, ghost trace: seq<Cursor>,
                        i0: int, j: int, k0: int)
        returns (i: int, k: int)
      requires temp != values && temp.Length == values.Length
      requires MergeState(values[..], original, trace, low, mid + 1, high + 1, i0, j, k0) && (i0 > mid || j > high)
      requires forall u :: low <= u <= high ==> temp[u] == original[u]
      modifies values
      ensures MergeState(values[..], original, trace, low, mid + 1, high + 1, i, j, k) && i == mid + 1
    {
      ghost var m, h := mid + 1, high + 1;
      i, k := i0, k0;
      while i <= mid
        modifies values
        invariant MergeState(values[..], original, trace, low, m, h, i, j, k)
        invariant i <= mid ==> j == h
      {
        MergeStateStep(values[..], original, trace, low, m, h, i, j, k);
        values[k] := temp[i];
        k, i := k + 1, i + 1;
      }
    }

    /**
     * Lomuto partition of `values[low..high]` around the pivot
     * `values[high]`: cells strictly below the pivot are gathered at the
     * front, then the pivot is swapped in right after them.
     */
    method Partition(low: int, high: int) returns (p: int)
      requires 0 <= low <= high < values.Length
      modifies values
      ensures low <= p <= high
      ensures values[p] == old(values[high])
      ensures forall k :: low <= k < p ==> values[k] < values[p]
      ensures forall k :: p < k <= high ==> values[p] <= values[k]
      ensures multiset(values[low..high + 1]) == old(multiset(values[low..high + 1]))
      ensures values[..low] == old(values[..low]) && values[high + 1..] == old(values[high + 1..])
    {
      ghost var original := values[..];
      var pivot := values[high];
      var i := PartitionScan(low, high, pivot);
      ghost var before := values[..];
      Swap(i + 1, high);
      p := i + 1;
      PartitionDone(before, values[..], original, low, high, i);
    }

    /**
     * The loop of the partition: every cell of `values[low..high-1]` below
     * the pivot is swapped to the end of the low region, whose last index
     * is returned.
     */
    method PartitionScan(low: int, high: int, pivot: int) returns (i: int)
      requires 0 <= low <= high < values.Length && pivot == values[high]
      modifies values
      ensures Partitioning(values[..], old(values[..]), low, high, i, high)
      ensures multiset(values[..]) == old(multiset(values[..]))
    {
      ghost var original := values[..];
      i := low - 1;
      var j := low;
      while j < high
        invariant Partitioning(values[..], original, low, high, i, j)
        invariant multiset(values[..]) == multiset(original)
      {
        if values[j] < pivot {
          i := i + 1;
          PartitionTake(values[..], original, low, high, i, j);
          Swap(i, j);
        }
        j := j + 1;
      }
    }

    /**
     * Quicksort of `values[low..high]` (both ends included): partition,
     * then sort the cells on each side of the pivot's final place.
     */
    method QuickSort(low: int, high: int)
      requires 0 <= low <= high + 1 <= values.Length
      modifies values
      ensures Sorted(values[low..high + 1])
      ensures multiset(values[low..high + 1]) == old(multiset(values[low..high + 1]))
      ensures values[..low] == old(values[..low]) && values[high + 1..] == old(values[high + 1..])
      ensures high <= low ==> values[..] == old(values[..])
      decreases high + 1 - low
    {
      if low < high {
        var p := Partition(low, high);
        ghost var parted := values[..];
        QuickSort(low, p - 1);
        ghost var leftDone := values[..];
        QuickSort(p + 1, high);
        QuickSortStep(old(values[..]), parted, leftDone, values[..], low, p, high);
      }
    }

    /** The dispatch on the selected algorithm's name. A name outside the five sorts nothing. */
    method Run(name: string)
      modifies values
      ensures Selected(name).Some? ==> Sorted(values[..])
      ensures multiset(values[..]) == old(multiset(values[..]))
      ensures Selected(name).None? ==> values[..] == old(values[..])
    {
      match Selected(name)
      case Some(Bubble) =>
        ghost var passes, swaps := BubbleSort();
      case Some(Selection) =>
        SelectionSort();
      case Some(Insertion) =>
        InsertionSort();
      case Some(Merge) =>
        MergeSort(0, values.Length - 1);
        assert values[..] == values[0..values.Length];
        assert old(values[..]) == old(values[0..values.Length]);
      case Some(Quick) =>
        QuickSort(0, values.Length - 1);
        assert values[..] == values[0..values.Length];
        assert old(values[..]) == old(values[0..values.Length]);
      case None =>
    }
  }

  /** The three steps of merge sort on `[low..high]` compose into a sort of that range. */
  lemma MergeSortStep(start: seq<int>, leftDone: seq<int>, rightDone: seq<int>, final: seq<int>,
                      low: nat, mid: nat, high: nat)
    requires low <= mid < high < |start| == |leftDone| == |rightDone| == |final|
    requires multiset(leftDone[low..mid + 1]) == multiset(start[low..mid + 1])
    requires leftDone[..low] == start[..low] && leftDone[mid + 1..] == start[mid + 1..]
    requires multiset(rightDone[mid + 1..high + 1]) == multiset(leftDone[mid + 1..high + 1])
    requires rightDone[..mid + 1] == leftDone[..mid + 1] && rightDone[high + 1..] == leftDone[high + 1..]
    requires multiset(final[low..high + 1]) == multiset(rightDone[low..mid + 1]) + multiset(rightDone[mid + 1..high + 1])
    requires final[..low] == rightDone[..low] && final[high + 1..] == rightDone[high + 1..]
    ensures multiset(final[low..high + 1]) == multiset(start[low..high + 1])
    ensures final[..low] == start[..low] && final[high + 1..] == start[high + 1..]
  {
    MergeSortFrame(start, leftDone, rightDone, final, low, mid, high);
    SplitMultiset(start, low, mid + 1, high + 1);
  }

  lemma MergeSortFrame(start: seq<int>, leftDone: seq<int>, rightDone: seq<int>, final: seq<int>,
                       low: nat, mid: nat, high: nat)
    requires low <= mid < high < |start| == |leftDone| == |rightDone| == |final|
    requires leftDone[..low] == start[..low] && leftDone[mid + 1..] == start[mid + 1..]
    requires rightDone[..mid + 1] == leftDone[..mid + 1] && rightDone[high + 1..] == leftDone[high + 1..]
    requires final[..low] == rightDone[..low] && final[high + 1..] == rightDone[high + 1..]
    ensures final[..low] == start[..low] && final[high + 1..] == start[high + 1..]
    ensures rightDone[low..mid + 1] == leftDone[low..mid + 1]
    ensures leftDone[mid + 1..high + 1] == start[mid + 1..high + 1]
  {
    PrefixSlice(rightDone, leftDone, low, mid + 1);
    SuffixSlice(leftDone, start, mid + 1, high + 1);
  }

  lemma PrefixSlice(a: seq<int>, b: seq<int>, lo: nat, m: nat)
    requires lo <= m <= |a| && m <= |b| && a[..m] == b[..m]
    ensures a[lo..m] == b[lo..m] && a[..lo] == b[..lo]
  {
    assert a[lo..m] == a[..m][lo..];
    assert b[lo..m] == b[..m][lo..];
    assert a[..lo] == a[..m][..lo];
    assert b[..lo] == b[..m][..lo];
  }

  lemma SuffixSlice(a: seq<int>, b: seq<int>, m: nat, hi: nat)
    requires m <= hi <= |a| == |b| && a[m..] == b[m..]
    ensures a[m..hi] == b[m..hi] && a[hi..] == b[hi..]
  {
    assert a[m..hi] == a[m..][..hi - m];
    assert b[m..hi] == b[m..][..hi - m];
    assert a[hi..] == a[m..][hi - m..];
    assert b[hi..] == b[m..][hi - m..];
  }

  lemma SplitMultiset(s: seq<int>, lo: nat, m: nat, hi: nat)
    requires lo <= m <= hi <= |s|
    ensures multiset(s[lo..hi]) == multiset(s[lo..m]) + multiset(s[m..hi])
  {
    assert s[lo..hi] == s[lo..m] + s[m..hi];
  }

  /** Partition followed by the two recursive sorts composes into a sort of `[low..high]`. */
  lemma QuickSortStep(start: seq<int>, parted: seq<int>, leftDone: seq<int>, final: seq<int>,
                      low: nat, p: nat, high: nat)
    requires low <= p <= high < |start| == |parted| == |leftDone| == |final|
    requires forall k :: low <= k < p ==> parted[k] < parted[p]
    requires forall k :: p < k <= high ==> parted[p] <= parted[k]
    requires multiset(parted[low..high + 1]) == multiset(start[low..high + 1])
    requires parted[..low] == start[..low] && parted[high + 1..] == start[high + 1..]
    requires Sorted(leftDone[low..p])
    requires multiset(leftDone[low..p]) == multiset(parted[low..p])
    requires leftDone[..low] == parted[..low] && leftDone[p..] == parted[p..]
    requires Sorted(final[p + 1..high + 1])
    requires multiset(final[p + 1..high + 1]) == multiset(leftDone[p + 1..high + 1])
    requires final[..p + 1] == leftDone[..p + 1] && final[high + 1..] == leftDone[high + 1..]
    ensures Sorted(final[low..high + 1])
    ensures multiset(final[low..high + 1]) == multiset(start[low..high + 1])
    ensures final[..low] == start[..low] && final[high + 1..] == start[high + 1..]
  {
    var pivot := parted[p];
    QuickSortFrame(start, parted, leftDone, final, low, p, high);
    assert AllBelow(parted[low..p], pivot);
    PermutationKeepsBelow(parted[low..p], leftDone[low..p], pivot);
    assert AllAtLeast(parted[p + 1..high + 1], pivot);
    PermutationKeepsAtLeast(parted[p + 1..high + 1], final[p + 1..high + 1], pivot);
    JoinAroundPivot(final[low..p], pivot, final[p + 1..high + 1]);
    assert final[low..high + 1] == final[low..p] + [pivot] + final[p + 1..high + 1];
    JoinedMultiset(parted, low, p, high);
    JoinedMultiset(final, low, p, high);
  }

  /** What each step leaves unchanged, in the slices that the quicksort proof joins. */
  lemma QuickSortFrame(start: seq<int>, parted: seq<int>, leftDone: seq<int>, final: seq<int>,
                       low: nat, p: nat, high: nat)
    requires low <= p <= high < |start| == |parted| == |leftDone| == |final|
    requires parted[..low] == start[..low] && parted[high + 1..] == start[high + 1..]
    requires leftDone[..low] == parted[..low] && leftDone[p..] == parted[p..]
    requires final[..p + 1] == leftDone[..p + 1] && final[high + 1..] == leftDone[high + 1..]
    ensures leftDone[p + 1..high + 1] == parted[p + 1..high + 1]
    ensures final[low..p] == leftDone[low..p]
    ensures final[p] == parted[p]
    ensures final[..low] == start[..low] && final[high + 1..] == start[high + 1..]
  {
    SuffixSlice(leftDone, parted, p, p + 1);
    SuffixSlice(leftDone, parted, p + 1, high + 1);
    SuffixSlice(leftDone, parted, p, high + 1);
    PrefixSlice(final, leftDone, p, p + 1);
    PrefixSlice(final, leftDone, low, p);
    assert final[p] == final[..p + 1][p];
    assert leftDone[p] == leftDone[p..][0];
    assert parted[p] == parted[p..][0];
  }

  /** The multiset of `s[low..high]` counted around position `p`. */
  lemma JoinedMultiset(s: seq<int>, low: nat, p: nat, high: nat)
    requires low <= p <= high < |s|
    ensures multiset(s[low..high + 1]) == multiset(s[low..p]) + multiset{s[p]} + multiset(s[p + 1..high + 1])
  {
    assert s[low..high + 1] == s[low..p] + [s[p]] + s[p + 1..high + 1];
  }

  /**
   * Selection sort's state before step `i`: the prefix `s[..i]` is sorted
   * and no element of it exceeds an element of the suffix.
   */
  ghost predicate SelectedPrefix(s: seq<int>, i: int) {
    && 0 <= i <= |s|
    && (forall p, q :: 0 <= p < q < i ==> s[p] <= s[q])
    && (forall p, q :: 0 <= p < i <= q < |s| ==> s[p] <= s[q])
  }

  /** Swapping a minimum of the suffix into position `i` extends the selected prefix by one. */
  lemma SelectionStep(s: seq<int>, i: int, m: int)
    requires SelectedPrefix(s, i) && i <= m < |s|
    requires forall k :: i <= k < |s| ==> s[m] <= s[k]
    ensures SelectedPrefix(Swapped(s, m, i), i + 1)
    ensures multiset(Swapped(s, m, i)) == multiset(s)
  {
    SwapKeepsMultiset(s, m, i);
    var t := Swapped(s, m, i);
    forall p, q | 0 <= p < q < i + 1
      ensures t[p] <= t[q]
    {
      if q == i {
        assert t[p] == s[p] && t[q] == s[m];
      } else {
        assert t[p] == s[p] && t[q] == s[q];
      }
    }
    forall p, q | 0 <= p < i + 1 <= q < |s|
      ensures t[p] <= t[q]
    {
      var w := if q == m then i else q;
      assert t[q] == s[w];
      if p == i {
        assert t[p] == s[m];
      } else {
        assert t[p] == s[p];
      }
    }
  }

  /** Once every position but the last is selected, the whole sequence is sorted. */
  lemma SelectionDone(s: seq<int>, i: int)
    requires SelectedPrefix(s, i) && i >= |s| - 1
    ensures Sorted(s)
  {
    forall p, q | 0 <= p < q < |s|
      ensures s[p] <= s[q]
    {
      if q >= i {
        assert p < i;
      }
    }
  }

  /** Insertion sort's state before step `i`: the prefix `s[..i]` is sorted. */
  ghost predicate SortedPrefix(s: seq<int>, i: int) {
    forall p, q :: 0 <= p < q < i && q < |s| ==> s[p] <= s[q]
  }

  lemma SortedPrefixIsSorted(s: seq<int>, i: int)
    requires SortedPrefix(s, i) && i >= |s|
    ensures Sorted(s)
  {
  }

  /**
   * The shift loop of step `i` of insertion sort, with `j` the next
   * candidate position: `prior[j+1..i]`, all greater than the key
   * `prior[i]`, has moved one place right; the rest is as before.
   */
  ghost predicate Shifting(cur: seq<int>, prior: seq<int>, i: int, j: int) {
    && 0 <= i < |prior| == |cur| && -1 <= j < i
    && (forall k :: 0 <= k <= j ==> cur[k] == prior[k])
    && (forall k :: j < k < i ==> cur[k + 1] == prior[k] && prior[k] > prior[i])
    && (forall k :: i < k < |cur| ==> cur[k] == prior[k])
  }

  /** Moving `cur[j]` up one place when it exceeds the key continues the shift. */
  lemma ShiftStep(cur: seq<int>, prior: seq<int>, i: int, j: int)
    requires Shifting(cur, prior, i, j) && j >= 0 && cur[j] > prior[i]
    ensures Shifting(cur[j + 1 := cur[j]], prior, i, j - 1)
  {
    var next := cur[j + 1 := cur[j]];
    forall k | j - 1 < k < i
      ensures next[k + 1] == prior[k] && prior[k] > prior[i]
    {
      if k == j {
        assert next[k + 1] == cur[j] == prior[j];
      } else {
        assert next[k + 1] == cur[k + 1];
      }
    }
  }

  /**
   * Writing the key at `j + 1` once the shift stops gives the prior
   * sequence with `prior[j+1..i]` moved one place right: the multiset is
   * kept and the longer prefix is sorted.
   */
  lemma InsertedAt(cur: seq<int>, prior: seq<int>, i: int, j: int)
    requires SortedPrefix(prior, i) && Shifting(cur, prior, i, j)
    requires j >= 0 ==> cur[j] <= prior[i]
    ensures SortedPrefix(cur[j + 1 := prior[i]], i + 1)
    ensures multiset(cur[j + 1 := prior[i]]) == multiset(prior)
  {
    var g := j + 1;
    var after := cur[g := prior[i]];
    RotatedKeepsMultiset(prior, after, i, g);
    forall p, q | 0 <= p < q < i + 1
      ensures after[p] <= after[q]
    {
      if q < g {
        assert after[p] == prior[p] && after[q] == prior[q];
      } else if q == g {
        assert after[p] == prior[p];
        assert p == g - 1 || prior[p] <= prior[g - 1];
      } else if p < g {
        assert after[p] == prior[p] && after[q] == prior[q - 1];
        assert p == q - 1 || prior[p] <= prior[q - 1];
      } else if p == g {
        assert after[q] == prior[q - 1];
      } else {
        assert after[p] == prior[p - 1] && after[q] == prior[q - 1];
      }
    }
  }

  /** Moving `prior[i]` down to `g`, and `prior[g..i]` up by one, keeps the multiset. */
  lemma RotatedKeepsMultiset(prior: seq<int>, after: seq<int>, i: nat, g: nat)
    requires g <= i < |prior| == |after|
    requires forall k :: 0 <= k < g ==> after[k] == prior[k]
    requires after[g] == prior[i]
    requires forall k :: g <= k < i ==> after[k + 1] == prior[k]
    requires forall k :: i < k < |prior| ==> after[k] == prior[k]
    ensures multiset(after) == multiset(prior)
  {
    var head, mid, tail := prior[..g], prior[g..i], prior[i + 1..];
    assert prior == head + mid + [prior[i]] + tail by {
      SplitAround(prior, g, i);
    }
    assert after[..g] == head;
    assert after[g + 1..i + 1] == mid;
    assert after[i + 1..] == tail;
    SplitAfterCell(after, g, i + 1);
    assert after == after[..g] + [after[g]] + after[g + 1..i + 1] + after[i + 1..];
  }

  /** A sequence is its prefix, one cell, a middle run and a suffix. */
  lemma SplitAround(s: seq<int>, a: nat, b: nat)
    requires a <= b < |s|
    ensures s == s[..a] + s[a..b] + [s[b]] + s[b + 1..]
  {
    assert s == s[..a] + s[a..b] + s[b..];
    assert s[b..] == [s[b]] + s[b + 1..];
  }

  /** A sequence is its prefix, one cell, a run after it and a suffix. */
  lemma SplitAfterCell(s: seq<int>, a: nat, b: nat)
    requires a < b <= |s|
    ensures s == s[..a] + [s[a]] + s[a + 1..b] + s[b..]
  {
    assert s == s[..a] + s[a..b] + s[b..];
    assert s[a..b] == [s[a]] + s[a + 1..b];
  }

  /**
   * The partition loop with `j` the next cell to visit: `cur[low..i]`
   * holds cells below the pivot `original[high]`, `cur[i+1..j-1]` cells at
   * least the pivot, the pivot cell is untouched and nothing outside
   * `[low..high]` moved.
   */
  ghost predicate Partitioning(cur: seq<int>, original: seq<int>, low: int, high: int, i: int, j: int) {
    && 0 <= low <= j <= high < |cur| == |original| && low - 1 <= i < j
    && cur[high] == original[high]
    && (forall k :: low <= k <= i ==> cur[k] < original[high])
    && (forall k :: i < k < j ==> original[high] <= cur[k])
    && (forall t :: 0 <= t < |cur| && !(low <= t <= high) ==> cur[t] == original[t])
  }

  /** Visiting a cell below the pivot swaps it to just after the low region, which grows by one. */
  lemma PartitionTake(cur: seq<int>, original: seq<int>, low: int, high: int, i: int, j: int)
    requires Partitioning(cur, original, low, high, i - 1, j) && j < high && cur[j] < original[high]
    ensures Partitioning(Swapped(cur, i, j), original, low, high, i, j + 1)
    ensures multiset(Swapped(cur, i, j)) == multiset(cur)
  {
    SwapKeepsMultiset(cur, i, j);
    var next := Swapped(cur, i, j);
    forall k | i < k < j + 1
      ensures original[high] <= next[k]
    {
      if k == j {
        assert next[k] == cur[i];
      } else {
        assert next[k] == cur[k];
      }
    }
  }

  /**
   * Swapping the pivot in just after the low region leaves `[low..high]`
   * split around it, as a permutation of the original range with the
   * outside untouched.
   */
  lemma PartitionDone(cur: seq<int>, final: seq<int>, original: seq<int>, low: int, high: int, i: int)
    requires Partitioning(cur, original, low, high, i, high) && multiset(cur) == multiset(original)
    requires low <= i + 1 <= high && final == Swapped(cur, i + 1, high)
    ensures final[i + 1] == original[high]
    ensures forall k :: low <= k < i + 1 ==> final[k] < final[i + 1]
    ensures forall k :: i + 1 < k <= high ==> final[i + 1] <= final[k]
    ensures multiset(final[low..high + 1]) == multiset(original[low..high + 1])
    ensures final[..low] == original[..low] && final[high + 1..] == original[high + 1..]
  {
    PivotPlaced(cur, final, original, low, high, i);
    SwapKeepsMultiset(cur, i + 1, high);
    SwapInside(cur, final, original, low, high, i + 1);
  }

  lemma PivotPlaced(cur: seq<int>, final: seq<int>, original: seq<int>, low: int, high: int, i: int)
    requires Partitioning(cur, original, low, high, i, high)
    requires low <= i + 1 <= high && final == Swapped(cur, i + 1, high)
    ensures final[i + 1] == original[high]
    ensures forall k :: low <= k < i + 1 ==> final[k] < final[i + 1]
    ensures forall k :: i + 1 < k <= high ==> final[i + 1] <= final[k]
  {
    forall k | i + 1 < k <= high
      ensures final[i + 1] <= final[k]
    {
      if k == high {
        assert final[k] == cur[i + 1];
      } else {
        assert final[k] == cur[k];
      }
    }
  }

  /** A swap inside `[low..high]` of a sequence that agrees with `original` outside it. */
  lemma SwapInside(cur: seq<int>, final: seq<int>, original: seq<int>, low: int, high: int, a: int)
    requires 0 <= low <= a <= high < |cur| == |original|
    requires forall t :: 0 <= t < |cur| && !(low <= t <= high) ==> cur[t] == original[t]
    requires final == Swapped(cur, a, high) && multiset(final) == multiset(original)
    ensures multiset(final[low..high + 1]) == multiset(original[low..high + 1])
    ensures final[..low] == original[..low] && final[high + 1..] == original[high + 1..]
  {
    assert forall t :: 0 <= t < |final| && !(low <= t <= high) ==> final[t] == original[t];
    AgreeOutside(original, final, low, high + 1);
    RangePermutation(original, final, low, high + 1);
  }
}
