# bubblesort — a verified model

This project models `bubblesort(int *array, int dimension)` from the iris-recognition
utilities (`src/utils/bubblesort.cpp`). Despite its name the routine is a selection sort
into descending order. For each output slot `i` it does three things:

1. It scans `array[0..dimension)` with a candidate index `max` that starts at 0 and
   moves only on a strictly greater value. The scan ends on the lowest index holding
   the current maximum.
2. It stores that value in slot `i` of a scratch buffer.
3. It overwrites the chosen cell with `0` to mark it consumed.

After `dimension` rounds the scratch buffer is copied back over the first `dimension`
cells.

Everything is in `bubblesort.dfy`, module `Bubblesort`:

- `Bubblesort` is the routine itself. It is a method on an `array<int>` with the same
  two loops, the same inner scan and a fresh scratch array. Its postcondition ties the
  final array to the specification function `SortResult` of the original contents. It
  also states the frame and, for a non-negative prefix, that the prefix ends sorted
  descending and is a permutation of the original prefix.
- `ScanUpTo`, `Working`, `Picked` and `SortResult` specify the routine on values. They
  give the scan's candidate after `j` cells, the array after `k` rounds, the scratch
  buffer after `k` rounds and the final array.
- The lemmas state what the routine promises, and where it breaks it.

For `dimension >= 2` the `0` marker is sound exactly when no value in the prefix is
negative. On a non-negative prefix the result is proved descending and a permutation.
`NegativeBreaksPermutation` proves the converse for every input: with two or more cells,
one negative value means the result is not a permutation. (With a single cell the array
is left unchanged whatever its sign.) The lemmas `NegativePairMisSorted` and
`MixedSignsLoseNegative` pin down the actual output on two inputs:

- `[-1, -2]` becomes `[-1, 0]`. It is not descending and `-2` is lost.
- `[3, -1, 0, 2]` becomes `[3, 2, 0, 0]`. It is descending, but `-1` is lost.

The model follows the code here. A description of the routine as a sort of every
integer array (descending order and permutation for all inputs) does not hold for the
code as written, so those two properties are proved only under the non-negativity
precondition.

## Model

| member | source | states |
|---|---|---|
| `Bubblesort.Bubblesort` | src/utils/bubblesort.cpp:22-41 | The array after the call is `SortResult` of the array before it. No cell at or beyond `dimension` changes. A non-negative prefix ends non-increasing and is a permutation of the original prefix. The loop invariants show that every scratch cell below `dimension` is written before the copy-back reads it. |
| `Bubblesort.ScanUpTo` | src/utils/bubblesort.cpp:28-32 | The scan's candidate index always lies inside the scanned part of the prefix, so the read at line 30 is in bounds. |
| `Bubblesort.ScanFindsFirstMax` | src/utils/bubblesort.cpp:28-32 | A full scan of a non-empty prefix ends on an index whose value is at least every value of the prefix and strictly greater than every value before it. |
| `Bubblesort.ScanIsFirstMax` | src/utils/bubblesort.cpp:28-32 | An index is the lowest index holding the prefix maximum if and only if it is where the scan ends. This is the tie-break: the earliest of equal maxima wins. |
| `Bubblesort.Working` | src/utils/bubblesort.cpp:27-35 | After any number of rounds, the array keeps its length and every cell from `dimension` on is unchanged. |
| `Bubblesort.Picked` | src/utils/bubblesort.cpp:27-35 | After `k` rounds, exactly `k` scratch cells have been filled. |
| `Bubblesort.WorkingValues` | src/utils/bubblesort.cpp:34 | After any number of rounds, every cell of the prefix holds its original value or the marker 0. |
| `Bubblesort.PickedValues` | src/utils/bubblesort.cpp:33-34 | Every value stored in the scratch buffer is a value of the original prefix or 0. |
| `Bubblesort.PickedPrefix` | src/utils/bubblesort.cpp:33 | Scratch cells written in earlier rounds are never overwritten by later rounds. |
| `Bubblesort.SortResult` | src/utils/bubblesort.cpp:37-38 | The final array has the original length. Cells from `dimension` on are the original ones. Every cell below `dimension` holds an original prefix value or 0, whatever the signs. |
| `Bubblesort.FirstIsMaximum` | src/utils/bubblesort.cpp:27-33 | For `dimension >= 1`, the first cell of the result is a value of the original prefix and is at least every value of it. |
| `Bubblesort.EmptyDimensionUnchanged` | src/utils/bubblesort.cpp:27-38 | With `dimension == 0` the array is left exactly as it was. |
| `Bubblesort.SingleCellUnchanged` | src/utils/bubblesort.cpp:27-38 | With `dimension == 1` the array is left exactly as it was, even when its first value is negative. |
| `Bubblesort.PickIsRemaining` | src/utils/bubblesort.cpp:30-34 | On a non-negative input, each round picks a value of the original prefix that has not been picked yet. A marker 0 never beats a value still waiting. |
| `Bubblesort.RoundKeepsCounts` | src/utils/bubblesort.cpp:33-34 | One round moves the picked value out of the values still to pick and adds one more 0 to the working prefix. |
| `Bubblesort.RoundKeepsOrder` | src/utils/bubblesort.cpp:30-34 | One round on a non-negative working prefix keeps it non-negative. The picks stay non-increasing, and no pick is below any value left in the working prefix. |
| `Bubblesort.RoundKeepsInvariant` | src/utils/bubblesort.cpp:27-35 | One round of a non-negative input preserves the round invariant (the multiset accounting and the ordering together). |
| `Bubblesort.RoundsKeepInvariant` | src/utils/bubblesort.cpp:27-35 | Every number of rounds of a non-negative input satisfies the round invariant. |
| `Bubblesort.NonNegativeResultDescending` | src/utils/bubblesort.cpp:27-38 | If the original prefix is non-negative, the final prefix is non-increasing: every value is at least every later value. |
| `Bubblesort.NonNegativeResultPermutation` | src/utils/bubblesort.cpp:27-38 | If the original prefix is non-negative, the final prefix is a permutation of it (equal multisets). |
| `Bubblesort.NonNegativeResultIsArrangement` | src/utils/bubblesort.cpp:27-38 | If the original prefix is non-negative, the final prefix equals every descending sequence holding the same values. |
| `Bubblesort.SortedInputUnchanged` | src/utils/bubblesort.cpp:27-38 | Sorting a prefix that is already descending and non-negative leaves the array unchanged. |
| `Bubblesort.TiesKept` | src/utils/bubblesort.cpp:27-38 | `[5, 5, 3]` sorts to `[5, 5, 3]`. |
| `Bubblesort.FiveValues` | src/utils/bubblesort.cpp:27-38 | `[4, 1, 7, 3, 7]` sorts to `[7, 7, 4, 3, 1]`. |
| `Bubblesort.NegativePairMisSorted` | src/utils/bubblesort.cpp:30-34 | `[-1, -2]` becomes `[-1, 0]`. The result is not non-increasing and not a permutation of the input. |
| `Bubblesort.MixedSignsLoseNegative` | src/utils/bubblesort.cpp:30-34 | `[3, -1, 0, 2]` becomes `[3, 2, 0, 0]`, which is not a permutation of the input. |
| `Bubblesort.FirstMarkerStays` | src/utils/bubblesort.cpp:27-35 | The cell that round 0 marks holds 0 in every later round. |
| `Bubblesort.LaterPicksNonNegative` | src/utils/bubblesort.cpp:28-34 | For any signs of the input, every result cell from index 1 to `dimension - 1` is at least 0, because the working prefix still holds the round-0 marker. |
| `Bubblesort.NegativeBreaksPermutation` | src/utils/bubblesort.cpp:27-38 | For `dimension >= 2`, if any value of the original prefix is negative, the final prefix is not a permutation of the original prefix. |

## Left out

- The allocation `new int[dimension]` and the `delete []` (lines 24 and 40) are not modelled as such. The scratch buffer is a fresh Dafny array, and deallocation has no logical content.
- A negative `dimension`, or one larger than the storage behind `array`, is undefined behaviour in the source. The model makes `0 <= dimension <= a.Length` a precondition instead of modelling memory corruption.
- C++ `int` width is not modelled. The routine only compares and copies values and does no arithmetic on them, so unbounded integers behave the same.
- The header `bubblesort.h` (line 20) is not part of this model.
