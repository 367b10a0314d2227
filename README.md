# Sorting engine of the sort visualizer, in Dafny

The program sorts an array of `ARRAY_SIZE = 100` random integers with one of
two algorithms, and draws and sounds every step. The model covers its
sorting engine in `sort.c`:

- `swap` exchanges two cells.
- `bubbleSort` swaps out-of-order neighbours in place. It calls the
  visualization callback with `(j, j + 1)` after every swap.
- `merge` copies the runs `array[left..mid]` and `array[mid+1..right]` into
  temporaries `L` and `R`. It then writes them back in three loops. The first
  loop takes from `L` on ties. The callback fires with `(k, -1)` after every
  write of `array[k]`.
- `mergeSort` is the top-down recursion with `mid = left + (right - left) / 2`.

The array is an `array<int>` that the methods change in place. Each loop of
the C code is a `while`/`for` loop of a method. Some loop bodies are split
into helper methods with their own contracts. The callback becomes a ghost
out-parameter `events`: a sequence of `Step(first, second)` values, one per
call, where `NoIndex = -1` stands for "no cell".

Modules:

- `Ordering`: sortedness, `Swapped` and inversion counting.
- `Merging`: reference definitions over any element type ordered by an
  integer key. `MergeBy` is the merge that takes the left head on ties.
  `MergeSortBy` splits with the left half taking the extra element. Their
  lemmas cover permutation, sortedness and stability.
- `WriteCount`: how many events merge sort emits for `n` elements, and its
  `n * ceil(log2 n)` bound.
- `Sort`: the four C procedures as methods, proved against those definitions.

What the proofs establish:

- `BubbleSort` leaves the array sorted and holding the same elements.
- Each of its events `(j, j + 1)` comes with the array before it. That pair
  was out of order there, and swapping it gives the next array. The arrays
  lead from the input to the result. The number of events is the number of
  inversions of the input, so a sorted input emits none.
- `Merge` writes the merge `MergeBy` of its two old runs over the range. It
  changes no other cell.
- `Merge` emits `(left, -1), (left + 1, -1), ..., (right, -1)` in that order.
- `MergeSort` leaves `a[left..right]` sorted, holding its old elements, and
  every other cell unchanged.
- `MergeSort`'s events follow the recursion. Their number is
  `MergeSortWrites(right - left + 1)`: 672 for the program's 100 elements.
- The sorted range equals the reference `MergeSortBy` of the old range.

One might expect every step event to show a permutation of the original
values. The code does not keep that during `merge`: a write overwrites a
cell whose value is still only in `L` or `R`, so the callback can see a
duplicated value. `Sort.MergeMidWrite`
gives a concrete case. Bubble sort does keep the property after every swap:
it is part of `BubbleInv`.

## Model

| member | source | states |
|---|---|---|
| Sort.Swap | sort.c:17-21 | the two cells are exchanged; every other cell keeps its value; the array is `Swapped(old, i, j)` |
| Ordering.Swapped | sort.c:17-21 | the exchanged sequence has the same length, the two cells exchanged, every other cell unchanged, the same multiset |
| Ordering.SwapRemovesOneInversion | sort.c:58-59 | swapping an out-of-order neighbour pair lowers the inversion count by exactly one |
| Ordering.SortedIffNoInversions | sort.c:56-58 | a sequence is sorted if and only if it has no inversions |
| Sort.BubbleSort | sort.c:55-75 | the array ends sorted with the same multiset; the number of events is the number of inversions of the input; a sorted input emits no event; every event is `(j, j + 1)` with `0 <= j` and `j + 1 < size`; the states chain from the input to the result, each event swapping an out-of-order pair of the state before it |
| Sort.BubblePass | sort.c:57-73 | one inner pass over the unsettled prefix `0..m-1` keeps the earlier events and states as a prefix, adds only swaps of out-of-order neighbours, keeps the bubble invariant and settles one more cell |
| Sort.ChainAppend | sort.c:58-60 | swapping an out-of-order neighbour pair of the current array extends the chain of states and events by that swap |
| Sort.SwapStep | sort.c:58-60 | a swap keeps the settled suffix, moves the largest element of the prefix one cell right, keeps the multiset, and adds one neighbour event that uses up one inversion and extends the chain of states |
| Sort.KeepStep | sort.c:57-58 | when the comparison finds the pair in order, no swap happens and the largest element of the prefix is already at `j + 1` |
| Sort.PassDone | sort.c:56-57 | after a pass the largest unsettled element sits at `m - 1`, so the settled suffix grows by one cell |
| Sort.BubbleDone | sort.c:56 | once no cell is unsettled, the array is sorted and the events number the inversions of the input; none when the input was sorted |
| Sort.CopyRun | sort.c:81-85 | the fresh temporary holds `a[from..from+n)`; `a` is unchanged |
| Sort.HeadNext | sort.c:89-95 | the next element of the merge is the left head when it is not greater than the right head, and the right head otherwise; what follows is the merge of the rests |
| Sort.MergeHead | sort.c:88-108 | one pass of the first loop writes the next element of the merge at `a[left + i + j]`, advances `i` or `j` by one and emits `(k, -1)` |
| Sort.MergeHeads | sort.c:87-109 | on exit one run is used up; `a[left..]` holds the first `i + j` elements of the merge and nothing else changed; the events are the writes `left..left+i+j-1` in order |
| Sort.Drain | sort.c:111-145 | the rest `T[i..]` of a run is copied to `a[k..]` with one `(q, -1)` event per write, in order; no other cell changes |
| Sort.MergeRest | sort.c:111-145 | the rest of `L`, then the rest of `R`, are written from `k` on, with their events in order |
| Sort.MergeInto | sort.c:87-145 | the three loops together write `MergeBy(L, R)` from `left` on, emitting `right - left + 1` write events in order |
| Sort.MergeJoined | sort.c:109-111 | the merged prefix from the first loop followed by the rests from the other two is the whole merge |
| Sort.Merge | sort.c:77-149 | the range becomes the merge of its two old runs, and no cell outside `[left, right]` changes; the events are `(left, -1), ..., (right, -1)` in order |
| Sort.MergeMidWrite | sort.c:90-96 | between two writes of the merge the array need not be a permutation: `[4, 2]` becomes `[2, 2]` |
| Sort.MergeRange | sort.c:77-149 | given sorted runs `a[left..mid]` and `a[mid+1..right]`, their merge is sorted and holds the elements of `a[left..right]` |
| Merging.MergeBy | sort.c:87-145 | the merge is as long as both runs together |
| Merging.MergeByPermutation | sort.c:87-145 | the merge holds exactly the elements of both runs |
| Merging.MergeBySorted | sort.c:88-95 | merging two sorted runs gives a sorted run |
| Merging.MergeByStable | sort.c:89-91 | taking the left head on ties keeps equal keys in their original order: if the left run's tags all precede the right run's tags, the merge is ordered by key and then by tag |
| Merging.MergeSortedRuns | sort.c:77-149 | on integers, merging sorted runs gives a sorted permutation of both |
| Sort.Midpoint | sort.c:153 | for `left < right`, `left <= mid < right`, and the left half is as long as the right half or one longer |
| Sort.MergeSort | sort.c:151-160 | for `left < right` the range ends sorted with its old elements and every other cell unchanged; otherwise the array is unchanged; the events are `MergeSortTrace(left, right)`, which is empty when `left >= right` |
| Sort.MergeHalves | sort.c:155-158 | merging the two halves sorted by the recursive calls leaves the whole range sorted with its old elements and the rest unchanged |
| Sort.MergeSortStep | sort.c:155-158 | one level composes: sorted halves (a one-element half left alone) merged give a sorted range with the old elements |
| Sort.MergeSortLevel | sort.c:155-158 | how the left call, the right call and the merge compose on the array contents |
| Sort.MergeSortTraceJoin | sort.c:155-158 | the events of the left half, of the right half and of the merge, in that order, are the events of the range |
| Sort.MergeSortTraceLength | sort.c:151-160 | merge sort of `n >= 1` elements emits `MergeSortWrites(n)` events |
| Sort.MergeSortTraceCells | sort.c:151-160 | every event of merge sort of `[left, right]` names a cell inside the range and no second cell |
| Sort.WritesCells | sort.c:96 | every write event of a run names a cell of the run and no second cell |
| Sort.SortWholeArray | sort.c:204 | the program's call `mergeSort(array, 0, size - 1)` sorts the whole array, keeps its elements, and emits `MergeSortWrites(size)` events |
| Sort.MergeSortAgrees | sort.c:151-160 | what `MergeSort` leaves in the range is exactly the reference `MergeSortBy` of its old contents |
| Sort.SortedUnique | sort.c:151-160 | two sorted sequences with the same elements are equal, so the sorted result is unique |
| Merging.MergeSortBy | sort.c:151-160 | the reference merge sort keeps the length |
| Merging.MergeSortByPermutation | sort.c:151-160 | merge sort returns its input reordered |
| Merging.MergeSortBySorted | sort.c:151-160 | merge sort returns a run ordered by key |
| Merging.MergeSortByStable | sort.c:151-160 | when tags increase along the input, the output is ordered by key and then by tag: merge sort is stable |
| Merging.MergeSortSortsIntegers | sort.c:151-160 | on integers, merge sort gives a sorted permutation |
| WriteCount.MergeSortWritesSplit | sort.c:153-158 | one level of the recursion writes the whole range once more than both halves |
| WriteCount.MergeSortWritesBound | sort.c:151-160 | merge sort of `n` elements writes at most `n * ceil(log2 n)` times |
| WriteCount.MergeSortWritesPow2 | sort.c:151-160 | on `2^k` elements it writes exactly `2^k * k` times |
| WriteCount.WritesForHundred | sort.c:10 | for `ARRAY_SIZE = 100`, merge sort emits 672 events, below `100 * 7` |

## Left out

- SDL initialisation, the window, the renderer, the event-poll loop and
  shutdown (`main`). These are foreign library I/O.
- `drawArray`. It only issues rendering calls.
- `generateSineWave`, `Mix_QuickLoad_RAW`, `Mix_PlayChannel`, `Mix_FreeChunk`
  and `SDL_Delay` inside the sort loops. They are floating-point audio and
  pacing side effects. Each callback call is recorded only as one step event.
- The callback's `array` and `size` arguments. An event records only the two
  indices. `merge` passes `ARRAY_SIZE` rather than the range length, which
  only affects drawing.
- The random seeding with `rand`/`srand` and the `scanf` menu. These are
  nondeterministic input. `SortWholeArray` takes any array in their place.
- A failed `malloc` in `merge`, and the `free` calls. `L` and `R` are fresh
  Dafny arrays.
- Sort.BubbleSort: sorts the whole array; the C `size` argument is the
  array's length here, because a C array carries no length of its own.
- Sort.BubbleSort, Sort.Merge, Sort.MergeSort: `int` is unbounded, so the
  model does not capture 32-bit overflow. Only comparisons and copies act on
  values, and the index arithmetic stays below `ARRAY_SIZE`.
- Sort.Merge: its contract ties the range to the reference `MergeBy`. The
  sorted-and-permutation promise for sorted runs is `Sort.MergeRange`, not a
  clause of `Merge` itself.
