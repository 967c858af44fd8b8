# term-revealing core in Dafny

A model of the column-packing and group-max parts of the term-revealing
scripts, with proofs about them:

- **Run-length encoding** (`rle` in evaluate_activation.py). The model follows
  the numpy pipeline step by step: neighbours unequal, `where`, append
  n - 1, `diff`, `cumsum`, then read the values at the run ends. Module
  `RunLength`, rle.dfy.
- **Conflict score and first-fit packing** (`get_conflict_score`,
  `first_fit`). Columns of a conflict matrix are packed into bins. Each
  column goes into the first bin that is below the multiplexing limit and
  whose pairwise conflict stays strictly below the threshold; otherwise it
  opens a new bin. Module `Packing`, packing.dfy. Both Python functions are
  imperative methods, proved against the functions `PairSum` and `Pack`.
- **Tile count** of a layer on a square systolic array (the expression in
  `test_packing`). Module `Tiling`, tiling.dfy.
- **CGM operator on the CPU** (cgm.py). Forward permutes a (B, C, W, H)
  tensor to (W, H, B, C) and views it as rows of `group_size`. It zeroes
  every entry that is not its row's maximum, then permutes back. Backward
  zeroes the gradient where the saved input is negative. The permutation is
  shown to be a transpose of the (B·C) × (W·H) matrix. Forward is modelled
  on arrays: two transposing copies and an in-place mask. Module `Cgm`,
  cgm.dfy.
- **`AverageMeter`** (util.py), as a class with the source's four fields and
  a ghost history of updates. Module `Util`, util.dfy.

`Wrappers` (wrappers.dfy) holds `Option`. `Arith` (arith.dfy) holds the one
nonlinear monotonicity fact used by the index and tile arithmetic.

Tensors, lists and numpy arrays are Dafny sequences or arrays. Floats are
mathematical reals. Python integers are unbounded, so they are `int`/`nat`.

## Model

| member | source | states |
|---|---|---|
| RunLength.Rle | evaluate_activation.py:74-87 | Returns None exactly for the empty input. Otherwise lengths, positions and values have the same, positive length, and every run length is at least 1. |
| RunLength.Unequal | evaluate_activation.py:83 | The neighbour mask has one entry fewer than the input, and entry j is true iff elements j and j+1 differ. |
| RunLength.Where | evaluate_activation.py:84 | `np.where`: every returned index holds true, every true index is returned, and the indices strictly increase. |
| RunLength.RunEnds | evaluate_activation.py:84 | The break indices from `Where`, then n - 1. |
| RunLength.RunEndsFacts | evaluate_activation.py:83-84 | The run ends strictly increase and the last is n - 1. Every end but the last is a place where neighbours differ, and every such place is an end. |
| RunLength.Diff | evaluate_activation.py:85 | `np.diff`: one entry fewer, entry k is a[k+1] - a[k]. |
| RunLength.Lengths | evaluate_activation.py:85 | One length per run end, each at least 1. |
| RunLength.CumSum | evaluate_activation.py:86 | `np.cumsum`: same length, entry k is the sum of the first k+1 entries. |
| RunLength.Positions | evaluate_activation.py:86 | One start position per run. `PositionIsPrefixSum` and `RleLengthsAndPositions` give the values. |
| RunLength.Values | evaluate_activation.py:87 | One value per run end, read at that end. `RunConstant` shows every element of the run equals it. |
| RunLength.RunConstant | evaluate_activation.py:83-84 | Every element of run k equals the element at the run's end. |
| RunLength.RleRoundTrip | evaluate_activation.py:74-87 | Repeating each value by its run length rebuilds the input exactly. |
| RunLength.ExpandSuffix | evaluate_activation.py:84-87 | Decoding runs k, k+1, … rebuilds the input from the start of run k. |
| RunLength.RleAdjacentValuesDiffer | evaluate_activation.py:83-87 | Runs are maximal: neighbouring run values differ. |
| RunLength.PrefixSumIsStart | evaluate_activation.py:85-86 | The first k run lengths sum to the start index of run k. |
| RunLength.PositionIsPrefixSum | evaluate_activation.py:86 | Position k is the sum of the first k lengths. |
| RunLength.RleLengthsAndPositions | evaluate_activation.py:85-86 | The run lengths sum to n. The first position is 0. Each later position is the previous position plus the previous length. |
| Packing.PairSum | evaluate_activation.py:89-94 | The reference score of a bin: m[cols[a]][cols[b]] summed over every index pair a < b, grouped by a as `combinations` enumerates them. |
| Packing.ConflictScore | evaluate_activation.py:89-94 | The nested loop returns the sum of m[a][b] over all pairs of the bin, in the order `combinations` yields them. The score is 0 for fewer than two columns. |
| Packing.PairSumAppend | evaluate_activation.py:104-105 | Scoring `bin_elems + [column]` adds the conflicts of `column` with every column already in the bin. |
| Packing.PairSumOfSmallBin | evaluate_activation.py:89-94 | A bin of at most one column scores 0. |
| Packing.Admits | evaluate_activation.py:102-107 | A bin admits a column iff its size is not `max_columns` and the bin with the column added scores strictly below the threshold. |
| Packing.FirstAdmitting | evaluate_activation.py:100-110 | Returns the least bin index at or after `from` that admits the column: not at `max_columns` and scoring below the threshold. Returns the bin count when none does. |
| Packing.Place | evaluate_activation.py:100-112 | One column's placement. A new bin `[column]` is opened iff no bin admits the column. Otherwise the column is appended to the earliest admitting bin and nothing else changes. |
| Packing.PlaceColumn | evaluate_activation.py:100-112 | The inner loop with its `continue`, `break` and `for … else` gives exactly `Place`. |
| Packing.Pack | evaluate_activation.py:96-113 | The reference result of `first_fit`: `Place` applied to each column in turn, starting from no bins. All bins hold valid column indices. |
| Packing.PackStep | evaluate_activation.py:98-112 | Packing one more column is one more `Place`. |
| Packing.PackPartition | evaluate_activation.py:96-113 | The bins partition the input. Each position goes to exactly one bin (`Owners`), and each bin lists its columns in input order. |
| Packing.PackBinsNonEmpty | evaluate_activation.py:108-112 | No bin is empty. |
| Packing.PackBinsBounded | evaluate_activation.py:102-112 | With `max_columns` at least 1, no bin holds more than `max_columns` columns. |
| Packing.PackBinsBelowThreshold | evaluate_activation.py:105-108 | Every bin of two or more columns scores strictly below `max_conflict_score`. |
| Packing.FirstFit | evaluate_activation.py:96-113 | The loop returns `Pack` of the input, with the defaults 0.01 and 8. The result has the partition, non-empty, bounded and below-threshold properties. |
| Tiling.CeilDiv | evaluate_activation.py:253 | `ceil(a / b)`: q·b ≥ a, and (q - 1)·b < a unless q = 0. |
| Tiling.CeilDivLeast | evaluate_activation.py:253 | No smaller number of b-wide tiles covers a. |
| Tiling.Tiles | evaluate_activation.py:253 | The count is CeilDiv(w, sa) · CeilDiv(h, sa): a grid whose sides reach w and h, so its area covers w · h. At least one tile is needed for a non-empty matrix, and none for an empty one. |
| Tiling.TilesLeast | evaluate_activation.py:253 | Any grid of sa × sa tiles whose sides reach w and h has at least `Tiles` tiles. |
| Tiling.TileCount | evaluate_activation.py:252-255 | Is `Tiles` of the data matrix when its area is strictly smaller than the weight matrix's, and `Tiles` of the weight matrix otherwise. The tiles' total area covers the chosen matrix's area, and the count is at least 1 for non-empty matrices. |
| Cgm.Transposed | cgm.py:27 | Entry (j, i) of the transpose is entry (i, j) of the input, for row-major storage. |
| Cgm.TransposeTwice | cgm.py:27-29 | Permuting back undoes the permutation. |
| Cgm.PermuteIsTranspose | cgm.py:26-27 | Element (b, c, w, h) of the row-major (B, C, W, H) tensor and element (w, h, b, c) of the permuted (W, H, B, C) tensor are entries (r, q) and (q, r) of the (B·C) × (W·H) matrix and its transpose. |
| Cgm.Max | cgm.py:28 | `max`: a member of the vector that no entry exceeds. |
| Cgm.GroupMax | cgm.py:28 | The maximum of row grp of the (-1, g) view: entries grp·g to grp·g + g - 1. `GroupMaxIsMaxOfSlice` states it as `Max` of that slice. |
| Cgm.Masked | cgm.py:28 | The reference mask: same length, and entry f is kept iff it equals the maximum of its group f / g, else 0. `MaskedKeepsExactlyMaxima` states this entry by entry. |
| Cgm.ForwardOutput | cgm.py:26-29 | The reference forward result: transpose to (W, H, B, C) order, mask, transpose back. Same length as the input, and `ForwardAt` gives each element. |
| Cgm.ForwardAt | cgm.py:26-29 | An output element is the input element at the same (b, c, w, h) if that element equals the maximum of its group in (W, H, B, C) order, and 0 otherwise. |
| Cgm.ForwardKeepsOrZeroes | cgm.py:26-29 | Every output element is the input element or 0. |
| Cgm.MaskedKeepsExactlyMaxima | cgm.py:28 | An entry survives the mask iff it equals its group's maximum, so ties keep every maximal entry. No entry exceeds its group's maximum. |
| Cgm.MaskedKeepsGroupMax | cgm.py:28 | Every group keeps at least one entry, one holding the group's maximum. |
| Cgm.MaskedGroupMax | cgm.py:28 | If a group's maximum is non-negative, masking leaves it unchanged. |
| Cgm.MaskedIdempotent | cgm.py:27-28 | On non-negative input, masking twice equals masking once. |
| Cgm.ForwardIdempotent | cgm.py:26-29 | On non-negative input, forward applied to its own output changes nothing. |
| Cgm.RangeMax | cgm.py:28 | The scan returns the maximum of the slice. |
| Cgm.GroupMaxima | cgm.py:28 | `x.max(dim=1)`: one maximum per group of the (-1, g) view, in a fresh array. |
| Cgm.MaskNonMax | cgm.py:28 | The masked assignment in place: the array becomes `Masked` of its old contents. |
| Cgm.Transpose | cgm.py:27 | `.contiguous()` of the permuted tensor: a fresh array equal to the transpose. |
| Cgm.CgmForward | cgm.py:21-29 | Returns None iff the `view(-1, group_size)` fails (group size not positive, or not dividing the element count). Otherwise returns a fresh array equal to `ForwardOutput`. |
| Cgm.CgmBackward | cgm.py:31-39 | Each gradient entry becomes 0 where the saved input is negative and is unchanged elsewhere. The gradient for `group_size` is None. |
| Cgm.CGM.constructor | cgm.py:9-11 | Stores the group size. |
| Cgm.CGM.Forward | cgm.py:13-14 | Applies the operator with the stored group size. |
| Util.AverageMeter.constructor | util.py:24-31 | `__init__` calls `reset`, so all four statistics start at 0 with an empty history. |
| Util.AverageMeter.Reset | util.py:27-31 | Sets val, avg, sum and count to 0 and forgets the history. |
| Util.AverageMeter.Update | util.py:33-37 | Sets val to v, adds v·n to sum and n to count, and records the update. `ok` holds iff the new count is nonzero, and then avg = sum / count. At count 0 (ZeroDivisionError) avg is unchanged. The invariant is preserved: sum and count are the totals of the history. |
| Util.WeightedSumOfConstant | util.py:33-37 | If every update reports the same value v, sum = v · count. |
| Util.WeightedSumBounds | util.py:33-37 | With non-negative weights and values in [lo, hi], lo·count ≤ sum ≤ hi·count. |
| Util.AverageBounds | util.py:33-37 | With non-negative weights and a positive count, the average lies between the smallest and largest reported value. |

## Left out

- The CUDA branches of `cgm.forward` and `cgm.backward` (cgm.py:23-24, 34-35), and the extension loading at cgm.py:5-6. The kernels are not part of this model.
- `CGM.extra_repr` (cgm.py:16-17): string formatting only.
- `ctx.save_for_backward` and autograd dispatch. `CgmBackward` takes the saved input as a parameter.
- Cgm.CgmForward: when `permute(2, 3, 0, 1)` is already contiguous (B·C = 1 or W·H = 1), `.contiguous()` and `.view` share storage with the input. The in-place mask then also overwrites the caller's tensor. The model always copies, so it does not capture this aliasing.
- Cgm.CgmForward: the input is taken to be a contiguous row-major (B, C, W, H) tensor. Arbitrary strides are not modelled.
- Cgm.Max: NaN is not modelled. Values are reals, and `torch.max` propagating NaN has no counterpart.
- Float rounding everywhere: conflict scores, averages and `math.ceil(a / b)` are computed on exact reals or integers.
- Util.AverageMeter.Update: Python raises ZeroDivisionError when the new count is 0, after val, sum and count have been updated. The model returns `ok == false` with the same new val, sum and count and an unchanged avg, instead of an exception.
- Packing.PackBinsBounded: stated only for `max_columns` ≥ 1. The source tests `len(bin_elems) == max_columns`, so with a limit below 1 bins grow without bound.
- Packing.FirstFit: the conflict matrix is a parameter. Building it from activations (`get_conflict_mats`, the trackers) is not part of this model.
- The torch `sort` that produces `size_idxs`, the data and weight dimensions read from the layers, and the rest of `test_packing`, `evaluate`, `tune_bn`, the argument parsing and plotting in evaluate_activation.py are not part of this model.
- evaluate_term_pairs.py and `train`, `test` and `adjust_learning_rate` in util.py are not part of this model.
- Cgm.CgmBackward: this is the source's rule (zero where the input is negative), not the derivative of the forward mask. The model states the rule as written.
