# Sorting Visualizer — the sort engine in Dafny

The Sorting Visualizer is a small Swing program that draws an integer array as
bars and rearranges it with one of five textbook sorts chosen by name: bubble
sort, selection sort, insertion sort, top-down merge sort and quicksort with a
Lomuto partition. All of its logic is in the inner class `SortAlgorithm`, whose
`run` dispatches on the selected name and whose sort methods rearrange the
shared `int[] array` in place.

This project models that engine in Dafny:

- `algorithms.dfy`, module `Algorithms`: the five algorithms, their display
  names, and the lookup that the `switch` in `run` performs on a name.
- `sort_spec.dfy`, module `SortSpec`: the reference definitions the sorts are
  proved against. These are sortedness, inversion count, the stable merge
  `Merged` of two runs, and a step-by-step model of a merge's read positions
  (`Cursor`, `Next`, `IsTrace`, `MergeState`), each with its lemmas.
- `sort_algorithm.dfy`, module `SortEngine`: class `SortAlgorithm`, with the
  shared array as the field `values: array<int>` and each sort as a method that
  modifies it. Every loop of the source is a `while` or `for` loop with its
  invariant. Each sort method is proved to leave its range sorted, as a permutation
  of what the range held, with every cell outside the range unchanged. The
  module also holds the step lemmas that carry those invariants from one
  iteration to the next.

Some results go beyond "sorted and a permutation":

- Bubble sort does exactly as many swaps as its input has inversions. It runs a
  single pass, and changes nothing, on an input that is already in order.
- The merge writes exactly the stable merge of the two runs. Copying back only
  the left run's leftover is enough, because once the left run is used up the
  write position equals the right run's read position.
- A sorted sequence is determined by its multiset. So every algorithm `Run`
  can select gives the same result on the same input.

Java `int` elements are modelled as unbounded `int`. The sorts only compare and
move elements and never compute with them, so nothing depends on the width.

## Model

| member | source | states |
|---|---|---|
| Algorithms.Name | SortingVisualizer/src/SortingVisualizer.java:86-90 | the display name of each algorithm as the combo box lists it; every one ends in " Sort" |
| Algorithms.Selected | SortingVisualizer/src/SortingVisualizer.java:153-170 | the switch selects an algorithm exactly when the name is one of the five display names, and the algorithm it selects carries that name |
| Algorithms.SelectedName | SortingVisualizer/src/SortingVisualizer.java:154-169 | each display name selects its own algorithm, so the five case labels are distinct |
| SortEngine.SortAlgorithm.Run | SortingVisualizer/src/SortingVisualizer.java:153-170 | a selected algorithm leaves the array sorted; the array stays a permutation of its contents; a name matching no case leaves the array unchanged |
| SortEngine.SortAlgorithm.BubbleSort | SortingVisualizer/src/SortingVisualizer.java:176-189 | the array ends sorted and as a permutation of its input; the number of swaps equals the input's inversions; there is at least one pass; a sorted input takes exactly one pass and is left unchanged |
| SortEngine.SortAlgorithm.Swap | SortingVisualizer/src/SortingVisualizer.java:183-185 | the exchange through a temporary leaves the array as the old one with the two cells swapped |
| SortSpec.SwapKeepsMultiset | SortingVisualizer/src/SortingVisualizer.java:183-185 | exchanging two cells keeps the multiset |
| SortSpec.SwapAdjacentRemovesInversion | SortingVisualizer/src/SortingVisualizer.java:182-187 | swapping an adjacent out-of-order pair lowers the inversion count by exactly one, which is why the do/while ends |
| SortSpec.CountBelowSwapAdjacent | SortingVisualizer/src/SortingVisualizer.java:183-185 | an adjacent swap does not change how many elements lie below a given value |
| SortSpec.SortedIffNoInversions | SortingVisualizer/src/SortingVisualizer.java:179-189 | a sequence is sorted if and only if it has no inversions |
| SortSpec.AdjacentSortedIsSorted | SortingVisualizer/src/SortingVisualizer.java:181-189 | a pass that finds every adjacent pair in order (`swapped` stays false) means the array is sorted |
| SortEngine.SortAlgorithm.IndexOfMinimum | SortingVisualizer/src/SortingVisualizer.java:200-205 | the index found lies in `[i, n)`, holds a value at most every value there, and is the first such index |
| SortEngine.SortAlgorithm.SelectionSort | SortingVisualizer/src/SortingVisualizer.java:197-209 | the array ends sorted and as a permutation of its input |
| SortEngine.SelectionStep | SortingVisualizer/src/SortingVisualizer.java:199-208 | swapping a minimum of the suffix into position `i` keeps the multiset; the prefix up to `i` is then sorted and no element of it exceeds an element of the suffix |
| SortEngine.SelectionDone | SortingVisualizer/src/SortingVisualizer.java:199 | once the loop has covered every position but the last, the array is sorted |
| SortEngine.SortAlgorithm.InsertionSort | SortingVisualizer/src/SortingVisualizer.java:217-228 | the array ends sorted and as a permutation of its input |
| SortEngine.ShiftStep | SortingVisualizer/src/SortingVisualizer.java:223-226 | moving `array[j]` one place right while it exceeds the key keeps the shifted run in place and greater than the key, with the rest untouched |
| SortEngine.InsertedAt | SortingVisualizer/src/SortingVisualizer.java:223-227 | when the shift stops, at `j = -1` or at the first element not above the key, writing the key at `j + 1` keeps the multiset and extends the sorted prefix by one |
| SortEngine.RotatedKeepsMultiset | SortingVisualizer/src/SortingVisualizer.java:223-227 | moving the key down over the shifted run is a rotation, which keeps the multiset |
| SortEngine.SortedPrefixIsSorted | SortingVisualizer/src/SortingVisualizer.java:219 | the sorted prefix covering the whole array means the array is sorted |
| SortEngine.SortAlgorithm.MergeSort | SortingVisualizer/src/SortingVisualizer.java:236-249 | `[low..high]` ends sorted and as a permutation of what it held; cells outside it are unchanged; a range of at most one cell is left as it was; the recursion terminates on the range length |
| SortEngine.MergeSortStep | SortingVisualizer/src/SortingVisualizer.java:238-243 | sorting the two halves, then merging them, is a permutation of the range that leaves the outside unchanged |
| SortEngine.SortAlgorithm.Merge | SortingVisualizer/src/SortingVisualizer.java:251-269 | `[low..high]` ends as the stable merge of the old runs `[low..mid]` and `[mid+1..high]`; cells outside it are unchanged |
| SortEngine.SortAlgorithm.CopyRange | SortingVisualizer/src/SortingVisualizer.java:252-255 | a fresh buffer of the array's length holds `array[low..high]` at the same indices |
| SortEngine.SortAlgorithm.MergeHeads | SortingVisualizer/src/SortingVisualizer.java:257-264 | the two-pointer loop keeps the merge state along its run and stops when one run is used up |
| SortEngine.SortAlgorithm.CopyLeftRest | SortingVisualizer/src/SortingVisualizer.java:266-268 | copying the left leftover keeps the merge state and ends with the left run used up |
| SortSpec.MergedPermutes | SortingVisualizer/src/SortingVisualizer.java:257-268 | the merge holds exactly the elements of both runs |
| SortSpec.MergedSorted | SortingVisualizer/src/SortingVisualizer.java:257-268 | merging two sorted runs gives a sorted sequence |
| SortSpec.Next | SortingVisualizer/src/SortingVisualizer.java:258-262 | one step of the merge stays within the runs and advances exactly one of the two read positions, `i` or `j`, by one |
| SortSpec.MergedSteps | SortingVisualizer/src/SortingVisualizer.java:258-262 | the element one step takes heads the merge of what remains: `<=` sends ties to the left run |
| SortSpec.TraceFrom | SortingVisualizer/src/SortingVisualizer.java:257-268 | from any read positions the merge loops run to their end, where both runs are used up |
| SortSpec.TraceLength | SortingVisualizer/src/SortingVisualizer.java:257-268 | a run of the merge takes one step per remaining element |
| SortSpec.TraceLeftUsedUp | SortingVisualizer/src/SortingVisualizer.java:266-268 | once the left run is used up, each step takes the next cell of the right run |
| SortSpec.TracePicksMerged | SortingVisualizer/src/SortingVisualizer.java:257-268 | the element taken at step `n` of the loops is element `n` of the stable merge |
| SortSpec.MergeStateStart | SortingVisualizer/src/SortingVisualizer.java:257 | `i = low, j = mid + 1, k = low` is a merge state at the start of its run, with nothing written |
| SortSpec.MergeStateStep | SortingVisualizer/src/SortingVisualizer.java:258-263 | writing the element the merge takes next at `k` moves the state one step along the run |
| SortSpec.MergeStateDone | SortingVisualizer/src/SortingVisualizer.java:266-269 | with the left run used up, `k == j`, so the uncopied right tail is already in place and the range holds the whole merge |
| SortEngine.SortAlgorithm.Partition | SortingVisualizer/src/SortingVisualizer.java:285-300 | returns `p` in `[low, high]` holding the old `array[high]`; cells in `[low, p)` are below it and cells in `(p, high]` are at least it; the range is a permutation of its old contents and the outside is unchanged |
| SortEngine.SortAlgorithm.PartitionScan | SortingVisualizer/src/SortingVisualizer.java:287-295 | the loop ends with `[low..i]` below the pivot, `(i, high)` at or above it, the pivot cell untouched, the array a permutation of its input and the outside unchanged |
| SortEngine.PartitionTake | SortingVisualizer/src/SortingVisualizer.java:289-293 | swapping a cell below the pivot to the end of the low region keeps the multiset and extends the low region by one |
| SortEngine.PartitionDone | SortingVisualizer/src/SortingVisualizer.java:296-299 | swapping the pivot in after the low region splits the range around it, as a permutation of the original range with the outside unchanged |
| SortEngine.PivotPlaced | SortingVisualizer/src/SortingVisualizer.java:296-299 | after the final swap the pivot sits at `i + 1` with smaller cells before it and the others after it |
| SortEngine.SortAlgorithm.QuickSort | SortingVisualizer/src/SortingVisualizer.java:271-283 | `[low..high]` ends sorted and as a permutation of what it held; cells outside it are unchanged; a range of at most one cell is left as it was; the recursion terminates on the range length |
| SortEngine.QuickSortStep | SortingVisualizer/src/SortingVisualizer.java:273-277 | partitioning, then sorting both sides of the pivot, sorts the range as a permutation that leaves the outside unchanged |
| SortSpec.JoinAroundPivot | SortingVisualizer/src/SortingVisualizer.java:273-277 | two sorted runs, one below the pivot and one at or above it, joined around the pivot are sorted |
| SortSpec.PermutationKeepsBelow | SortingVisualizer/src/SortingVisualizer.java:275 | sorting the left side keeps every cell below the pivot |
| SortSpec.PermutationKeepsAtLeast | SortingVisualizer/src/SortingVisualizer.java:276 | sorting the right side keeps every cell at or above the pivot |
| SortSpec.SortedPermutationUnique | SortingVisualizer/src/SortingVisualizer.java:154-169 | two sorted permutations of the same input are equal, so all five sorts give the same result |

## Left out

- The Swing user interface is not modelled: the frame, panels, sliders, combo box, labels, bar painting and `repaint`. It is presentation only.
- The thread is not modelled: `SortAlgorithm` extends `Thread`, is started by `startSorting`, and keeps the `sorting` flag. The model runs one sort at a time, so the flag's race does not arise.
- Timing via `System.nanoTime`, the `System.out.println` reports and the `setText` calls for the complexity labels are not modelled. They only display information.
- `initializeArray` draws random bar heights with `Math.random()`; here the array is any `array<int>` passed to the constructor. `delayMs` is unused in the source.
- Run: the source's `switch` has no `default` branch, so a name that matches no case sorts nothing; the model does the same.
- SortEngine.SortAlgorithm.MergeSort: requires `0 <= low <= high + 1 <= length`. The source treats any range with `low >= high` as a no-op, and the only call, `mergeSort(0, array.length - 1)`, meets the bound.
- SortEngine.SortAlgorithm.QuickSort: requires the same range bound as MergeSort, for the same reason.
- SortEngine.SortAlgorithm.MergeSort: the midpoint `(low + high) / 2` uses unbounded integers. Java's 32-bit overflow would need an array of more than 2^30 cells.
- SortEngine.SortAlgorithm.Merge: the source runs the copy into `temp` and both merge loops in one method. Here they are the helper methods `CopyRange`, `MergeHeads` and `CopyLeftRest`, which Merge calls in the same order on the same variables.
- SortEngine.SortAlgorithm.Partition: the `for` loop of the partition is the helper method `PartitionScan`.
- SortEngine.SortAlgorithm.SelectionSort: the inner `for` loop that finds `minIndex` is the helper method `IndexOfMinimum`.
- SortEngine.SortAlgorithm.Swap: each sort swaps inline through a temporary; here the three statements are one method, called as swap(a, b) with the same cells in the same order.
