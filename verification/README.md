# PyMVPA support helpers in Dafny

A model of the four helpers in PyMVPA's `mvpa/misc/support.py`, the
"little helpers in everyday life" of the package:

- `transformWithBoxcar` reduces windows of consecutive samples ("boxcars"),
  one window per start point, after checking that every window fits inside
  the data (module `Boxcar`, file `boxcar.dfy`).
- `buildConfusionMatrix` fills an N x N contingency table of targets against
  predictions over N labels (module `Confusion`, file `confusion.dfy`).
- `getUniqueLengthNCombinations` enumerates lists of `n` elements by
  recursive backtracking over a shared list of "occupied" flags (module
  `Combinations`, file `combinations.dfy`, for the code; module
  `CombinationIndex`, file `combination_index.dfy`, for what it emits,
  written as positions).
- `indentDoc` indents every line after the first of a printed value by two
  spaces (module `Indentation`, file `indentation.dfy`).

`wrappers.dfy` holds the `Option` and `Result` types used for error paths.

The pure helpers are functions. The two helpers that change state step by
step are methods. `BuildConfusionMatrix` writes into a zero-initialised
`array2`. `Take` updates the `occupied` flags, an `array<bool>`, in place.
The list of results that all calls of `take` append to is passed into each
call and returned from it. Each method is proved against a function:
`Cell` for the matrix, and `TakeCall`/`Scan` for one call of `take` and its
loop. Lemmas then prove what those functions compute.

What the combination generator really does: the statement meant to free an
element after the recursive call (`mvpa/misc/support.py:115`) is a
comparison whose result is thrown away, so no flag is ever cleared. The
model follows the code. As a result, the occupied flags always form a prefix
of the positions. For `n <= 1`, including `n = 0`, the output is one
singleton per element. For `n >= 2` it is every list `[d0, ..., d(n-3), di, dj]`
with `n-2 <= i < j < len(data)`, in lexicographic order. For `n = 2` that
is every pair. For `n >= 3` it is only the combinations that start with the
first `n-2` elements, not every combination as the docstring says.
Restoring the assignment would not give combinations either: the loop
restarts at position 0 at every depth, so it would list every ordered
arrangement. The model therefore records the behaviour and does not offer a
correction.

Where the code and its docstrings differ, the model follows the code:
`getUniqueLengthNCombinations` as above, and `n <= 0` gives singletons rather
than lists of length `n`.

## Model

| member | source | states |
|---|---|---|
| Boxcar.LegalBox | mvpa/misc/support.py:36-37 | the two-part test for one start point holds exactly when the window `[sp+offset, sp+offset+boxlength)` starts at or after 0 and ends at or before `len(data)` |
| Boxcar.FirstIllegalBox | mvpa/misc/support.py:34-40 | the validation loop finds nothing exactly when every start point passes the source's box test; otherwise it reports the first start point that fails, and all earlier ones pass |
| Boxcar.TransformWithBoxcar | mvpa/misc/support.py:14-50 | boxlength < 1 fails with the boxlength error, and a failure is that error only when boxlength < 1, so an illegal box with boxlength >= 1 always reports the illegal-box error; otherwise success exactly when every box is legal, and an illegal-box error names the first failing start point with the offset and length; on success one result per start point, in order, and entry k is fx applied to the slice `data[sp+offset .. sp+offset+boxlength)`, whatever fx is |
| Boxcar.LegalBoxMeansInData | mvpa/misc/support.py:36-37 | for boxlength >= 1 the source's two-part test holds exactly when every index of the window `range(sp+offset, sp+offset+boxlength)` lies in `[0, len(data))` |
| Boxcar.SelectorInData | mvpa/misc/support.py:44-45 | when all boxes are legal, the window of start point k has `boxlength` indices, its j-th index is `startpoints[k]+offset+j`, and every index lies in `[0, len(data))` |
| Boxcar.Selector | mvpa/misc/support.py:44-45 | one index window per start point; window k has `max(boxlength, 0)` indices and its j-th index is `startpoints[k]+offset+j` |
| Boxcar.Rows | mvpa/misc/support.py:48 | `data[N.array(box)]` has one row per index of `box`, and row j is `data[box[j]]` |
| Boxcar.WindowIsSlice | mvpa/misc/support.py:48 | gathering the rows of a range of indices (`data[N.array(box)]`) gives the contiguous slice of the data |
| Confusion.MaskSelect | mvpa/misc/support.py:81 | `pred[targets == tl]` selects exactly as many predictions as there are targets equal to `tl`, and only values from the predictions |
| Confusion.CountEqual | mvpa/misc/support.py:81 | `N.sum(xs == v)` is at most `len(xs)`, and it is positive exactly when `v` occurs in `xs` |
| Confusion.Count | mvpa/misc/support.py:81 | the count for target `a` and prediction `b` is at most the number of targets equal to `a`, and 0 when `a` is not among the targets or `b` not among the predictions |
| Confusion.Cell | mvpa/misc/support.py:81 | a cell counts the predictions selected by the target mask that equal the column label; it is a natural number and at most `len(targets)` |
| Confusion.BuildConfusionMatrix | mvpa/misc/support.py:73-83 | returns a new `len(labels) x len(labels)` matrix whose cell (t, p) is the count of samples with target `labels[t]` and prediction `labels[p]` |
| Confusion.CountAppend | mvpa/misc/support.py:81 | one more sample (x, y) raises exactly the count of the pair (x, y) by one and leaves every other count unchanged |
| Confusion.CountIsPositions | mvpa/misc/support.py:70-71 | a cell equals the number of positions k with `targets[k] == a` and `predictions[k] == b` |
| Confusion.TableSumIsSampleCount | mvpa/misc/support.py:77-81 | with distinct labels and every target and prediction among them, the cells of the table add up to `len(targets)` |
| Confusion.TableSumAppend | mvpa/misc/support.py:79-81 | one more sample (x, y) adds `CountEqual(columns, y)` to the table sum for each row labelled x |
| Confusion.RowSumAppend | mvpa/misc/support.py:80-81 | one more sample (x, y) adds the number of columns labelled y to row x and nothing to other rows |
| Confusion.OccursOnce | mvpa/misc/support.py:79 | a label of a list of distinct labels has exactly one row (and one column) |
| Confusion.ConfusionOffDiagonalZero | mvpa/misc/support.py:79-81 | with distinct labels and predictions equal to targets, every off-diagonal cell is 0 |
| Confusion.PerfectPredictionOffDiagonal | mvpa/misc/support.py:81 | with predictions equal to targets, no sample is counted for two different labels |
| Confusion.PerfectPredictionDiagonal | mvpa/misc/support.py:81 | with predictions equal to targets, the diagonal count of a label is the number of samples with that target |
| Combinations.TakeCall | mvpa/misc/support.py:104-118 | one call of `take` as a function of the flags it starts from: it returns a flag list of the same length in which every flag set on entry is still set |
| Combinations.Scan | mvpa/misc/support.py:105-118 | the first i iterations of `take`'s loop: they keep the length of the flag list and never clear a flag, the recursive calls included |
| Combinations.Take | mvpa/misc/support.py:104-118 | one call of `take` appends exactly the lists `TakeCall` yields and leaves the flags `TakeCall` yields, the flag after a recursive call staying set (line 115) |
| Combinations.GetUniqueLengthNCombinations | mvpa/misc/support.py:86-126 | with all flags initially clear, the result is the elements of data at the positions listed by `Combos(len(data), n)`, list by list |
| Combinations.TakeFromStart | mvpa/misc/support.py:121-123 | the top-level call `take(data, occupied, 0, [])` with all flags clear produces exactly `Combos(len(data), n)` |
| Combinations.FlagsNeverCleared | mvpa/misc/support.py:111-115 | for n >= 2 the top-level call leaves every flag set |
| Combinations.DeepTake | mvpa/misc/support.py:104-115 | below the last two depths only the first free position is taken, and the recursion returns with every flag set |
| Combinations.PairDepthScan | mvpa/misc/support.py:105-115 | one depth above the last, each free position i is flagged in turn and every `taken + [di, dj]` with j > i is appended |
| Combinations.LastDepthScan | mvpa/misc/support.py:105-107 | at the last depth `taken + [di]` is appended for every free position i, in order, and no flag changes |
| Combinations.ScanSkipsOccupied | mvpa/misc/support.py:107 | loop iterations over flagged positions change nothing |
| Combinations.SingletonsForSmallN | mvpa/misc/support.py:109-118 | for n <= 1, including 0, the result is `[[d0], [d1], ...]`, one singleton per element in order |
| CombinationIndex.Combos | mvpa/misc/support.py:100-126 | the positions listed by the whole generator for data of length `len`; every listed position indexes the data |
| CombinationIndex.CombosAreCombinations | mvpa/misc/support.py:87-88 | every emitted list uses strictly increasing positions, so no element is taken twice; its length is n, or 1 when n <= 1 |
| CombinationIndex.CombosSound | mvpa/misc/support.py:104-118 | for n >= 2 every emitted list is an increasing list of n positions whose first n-2 positions are 0, 1, ..., n-3 |
| CombinationIndex.CombosComplete | mvpa/misc/support.py:104-118 | for n >= 2 every increasing list of n positions starting 0, 1, ..., n-3 is emitted |
| CombinationIndex.CombosCharacterization | mvpa/misc/support.py:104-123 | for n >= 2 a list is emitted if and only if it is an increasing list of n positions starting 0, 1, ..., n-3 |
| CombinationIndex.CombosSorted | mvpa/misc/support.py:105-118 | the lists are emitted in strictly increasing lexicographic order of positions |
| CombinationIndex.CombosSingletons | mvpa/misc/support.py:109 | for n <= 1 the positions emitted are `[0], [1], ..., [len-1]` |
| CombinationIndex.CombosTooFew | mvpa/misc/support.py:109-118 | for n >= 1 and fewer than n elements nothing is emitted |
| CombinationIndex.CombosOfTwo | mvpa/misc/support.py:104-118 | for n = 2 a list is emitted if and only if it is a pair of positions i < j |
| CombinationIndex.CombosOfTwoCount | mvpa/misc/support.py:104-118 | for n = 2 exactly `len*(len-1)/2` pairs are emitted |
| CombinationIndex.CombosStartAtZero | mvpa/misc/support.py:111-115 | for n >= 3 every emitted list starts with the first element |
| CombinationIndex.CombosMissSome | mvpa/misc/support.py:115 | for n >= 3 and more than n elements, the combination of positions 1..n is never emitted, so the output is a proper subset of all combinations |
| CombinationIndex.PairsShape | mvpa/misc/support.py:109-118 | a list built at the pair depth extends `taken` by two positions i < j with i in the scanned range and j < len |
| CombinationIndex.PairsComplete | mvpa/misc/support.py:105-118 | every pair `taken + [i, j]` with i in the scanned range and i < j < len is built |
| Indentation.IndentDoc | mvpa/misc/support.py:135 | the output is two characters longer than the input per newline |
| Indentation.DedentIndent | mvpa/misc/support.py:135 | deleting the two spaces after each newline of the output recovers the input |
| Indentation.IndentWithoutNewline | mvpa/misc/support.py:135 | a string without a newline is returned unchanged |
| Indentation.IndentConcat | mvpa/misc/support.py:135 | the substitution acts piecewise: indenting `a + b` gives the indented `a` followed by the indented `b` |
| Indentation.IndentKeepsNewlines | mvpa/misc/support.py:135 | the output has exactly as many newlines as the input |
| Indentation.IndentFollowsNewlines | mvpa/misc/support.py:130-135 | every newline of the output is followed by two spaces, so every line after the first is indented |

## Left out

- `transformWithBoxcar`'s default reducer `N.mean` is a floating-point average over an array axis. The model takes the reducer as an arbitrary function `fx` from a window's rows to a value. The final `N.array(...)` stacking of the results is a sequence of those values.
- Start points, offsets and box lengths are integers. Non-integer inputs, which Python would accept in the arithmetic of the check, are not modelled.
- `BuildConfusionMatrix` requires `len(targets) == len(predictions)`: the docstring demands two length-n vectors, and the boolean mask `pred[targets==tl]` needs equal lengths. The model also treats `targets` as an array, so `targets == tl` compares element-wise. A plain Python list there would compare as a whole, and that case is not modelled.
- The `uint` element type of the matrix is modelled as `nat`; counts never exceed `len(targets)`, so no wrap-around arises.
- Confusion.TableSumIsSampleCount: the sum is stated for the table function `TableSum` over the labels, whose cells are the same counts the method writes into the matrix; there is no separate sum over the `array2` itself.
- `indentDoc` applies Python's `repr` (the backtick form) to an arbitrary value first. `repr` is outside this model: `IndentDoc` takes the resulting string.
- The surface-searchlight subsystem (volume geometry, meshes, sparse attributes, voxel selection) and its test file `mvpa2/tests/test_surfing.py` are a separate part of the package and are not modelled.
- `doc/examples/permutation_test.py` is a demo script that trains a classifier on random permutations and prints the results (randomness, floating point, external libraries). It is not part of this model.
