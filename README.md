# mlwpy helpers, modelled in Dafny

`MLWPY/mlwpy.py` is the companion module of the book "Machine Learning with
Python for Everyone". Most of it is plotting glue and calls into numpy and
scikit-learn. This project models the small exact helpers in it, on
sequences and integers, and proves what they promise:

- `enumerate_outer`: the flat index list of a sequence of sequences
  (module `EnumerateOuter`, on top of the model of `np.repeat` in `NpRepeat`).
- `np_cartesian_product`: the table of all combinations of the input arrays,
  in the exact row order that `np.meshgrid`'s default `'xy'` indexing
  followed by `np.stack(..., axis=-1).reshape(-1, ndim)` gives
  (module `CartesianProduct`).
- `make_ticks`, nested in `high_school_style`: the integer ticks between two
  axis limits, without 0 when the axis crosses zero (module `Ticks`).
- `reweight`, from the integer counts on: the counts are reduced by their gcd
  (`functools.reduce` over `math.gcd`, then numpy's `//`), and each example is
  repeated that many times (module `Reweight`).
- `np_array_fromiter`: a newly allocated array filled slot by slot from an
  iterator, as an imperative method with a loop (module `FromIter`).
- `get_model_name`: the class name cut out of the text of a class
  (module `ModelName`, with a model of `str.split('.')`).
- `DLDA.fit`, label part: the sorted distinct labels (`np.unique`), the cases
  per label (a boolean mask), and the priors `len(cases) / len(train_ftrs)` as
  exact fractions, in a class `Dlda` whose `Fit` method updates its fields in
  a loop over the labels (module `Classifier`).

Errors the Python code raises are values of `Results.Error`:
`enumerate_outer([])` calls `np.repeat()` with no argument (TypeError);
`np_cartesian_product()` stacks an empty list (ValueError); `reduce(gcd, [])`
has no initial value (TypeError); `np.repeat` rejects counts that do not
broadcast and negative counts (ValueError); writing past `shape[0]` and a
boolean mask of the wrong length are IndexErrors.

Behaviours of the code that the model keeps:

- `reduce(gcd, counts)` over a single count returns that count unchanged,
  sign included, since `gcd` is never called; `counts // our_gcd` is numpy's
  floor division, which gives 0 for a zero divisor. So all-zero counts reduce to
  zeros, and a single count reduces to 1 (or to 0 if it is 0).
- `np.repeat` broadcasts a single count to every row. So `reweight` with one
  weight keeps every example once, whatever the number of examples.
- `DLDA.fit` on an empty label vector resets the fitted state and does not
  fail. The mask check only happens inside the loop over the labels. When it
  fails, `uniq_tgts` is already set and the priors dictionary is still empty.

## Model

| member | source | states |
|---|---|---|
| `NpRepeat.Repeat` | MLWPY/mlwpy.py:267 | np.repeat's output has as many rows as the counts add up to, and each of them is one of the input rows |
| `NpRepeat.RepeatAt` | MLWPY/mlwpy.py:267 | copy j of row i sits at position (sum of the counts before i) + j: order is kept |
| `NpRepeat.RepeatBlock` | MLWPY/mlwpy.py:267 | the copies of row i are one contiguous block of counts[i] copies of it, after the copies of the rows before it |
| `NpRepeat.RepeatCount` | MLWPY/mlwpy.py:267 | with distinct rows, row i occurs exactly counts[i] times |
| `NpRepeat.RepeatMember` | MLWPY/mlwpy.py:267 | every output entry is an input row with a positive count |
| `NpRepeat.RepeatChecked` | MLWPY/mlwpy.py:267 | np.repeat fails exactly when a single count is negative, when there are several counts but not one per row, or when one of them is negative; a result only holds input rows |
| `EnumerateOuter.EnumerateOuter` | MLWPY/mlwpy.py:275-277 | the only failure is an empty outer sequence, with the no-argument TypeError; otherwise the result has one entry per inner element (the sum of the inner lengths) |
| `EnumerateOuter.EnumerateOuterIndices` | MLWPY/mlwpy.py:275-277 | every entry is an index of the outer sequence whose inner sequence is not empty |
| `EnumerateOuter.EnumerateOuterSorted` | MLWPY/mlwpy.py:275-277 | the index list is nondecreasing |
| `EnumerateOuter.EnumerateOuterCounts` | MLWPY/mlwpy.py:275-277 | outer index i occurs exactly len(outer_seq[i]) times |
| `EnumerateOuter.EnumerateOuterBlocks` | MLWPY/mlwpy.py:275-277 | the copies of index i form the block right after the inner lengths before i |
| `EnumerateOuter.RepeatIncreasing` | MLWPY/mlwpy.py:277 | repeating the increasing indices of enumerate gives a nondecreasing list |
| `EnumerateOuter.EnumerateOuterExample` | MLWPY/mlwpy.py:275-277 | [[7,7,7], [], [8,8]] gives [0,0,0,2,2] |
| `CartesianProduct.RowMajor` | MLWPY/mlwpy.py:301 | every row of the C-ordered reshape is as wide as there are arrays |
| `CartesianProduct.ExtendAt` | MLWPY/mlwpy.py:301 | in C order, row i * (rows per element) + q is element i in front of inner row q |
| `CartesianProduct.RowMajorMember` | MLWPY/mlwpy.py:301 | the C-ordered grid holds a row exactly when it takes its j-th entry from the j-th array, for every j |
| `CartesianProduct.CartesianProduct` | MLWPY/mlwpy.py:296-301 | fails (nothing to stack) exactly on no arrays; otherwise every row is len(arrays) wide; its rows are pinned down by the lemmas below |
| `CartesianProduct.CartesianProductShape` | MLWPY/mlwpy.py:296-301 | for at least one array, there is one row per combination: the product of the lengths |
| `CartesianProduct.CartesianProductMember` | MLWPY/mlwpy.py:296-301 | a row occurs exactly when its j-th entry comes from arrays[j] for every j: all combinations and nothing else |
| `CartesianProduct.CartesianProductSingle` | MLWPY/mlwpy.py:296-301 | with one array, row k is [a0[k]] |
| `CartesianProduct.CartesianProductPairAt` | MLWPY/mlwpy.py:296-301 | with two arrays, row k is (a0[k mod n0], a1[k div n0]): the first array varies fastest |
| `Ticks.Range` | MLWPY/mlwpy.py:126-128 | list(range(lo, hi)) has max(0, hi - lo) entries, entry k being lo + k |
| `Ticks.Sorted` | MLWPY/mlwpy.py:121 | sorted(lims) returns the two limits in order, as given or swapped |
| `Ticks.MakeTicks` | MLWPY/mlwpy.py:120-128 | the ticks are never empty, start at the lower limit and end at the upper one; the rest is `MakeTicksSpec` |
| `Ticks.MakeTicksSymmetric` | MLWPY/mlwpy.py:121 | swapping the two limits gives the same ticks |
| `Ticks.MakeTicksStraddleAt` | MLWPY/mlwpy.py:125-126 | when the axis crosses zero, tick k is lwr + k, plus one once 0 is reached, so 0 is skipped |
| `Ticks.MakeTicksSpec` | MLWPY/mlwpy.py:120-128 | the ticks are strictly increasing and never empty; they are exactly the integers in [lwr, upr], minus 0 when lwr * upr < 0; their count is upr - lwr + 1, one less in that case |
| `Ticks.MakeTicksExample` | MLWPY/mlwpy.py:120-128 | limits (3, -2) give [-2,-1,1,2,3]; limits (0, 2) give [0,1,2] |
| `ModelName.Split` | MLWPY/mlwpy.py:142 | str.split('.') gives at least one segment, and no segment has a dot |
| `ModelName.JoinSplit` | MLWPY/mlwpy.py:142 | joining the segments with '.' gives back the text |
| `ModelName.SplitAtDot` | MLWPY/mlwpy.py:142 | a dot-free head followed by a dot is split off as the first segment |
| `ModelName.LastSegmentSpec` | MLWPY/mlwpy.py:142 | split('.')[-1] is the dot-free suffix after the last dot, or the whole text when there is no dot |
| `ModelName.DropLastTwo` | MLWPY/mlwpy.py:142 | t[:-2] is the prefix of t two characters shorter, or empty when t is shorter than 2 |
| `ModelName.GetModelName` | MLWPY/mlwpy.py:140-142 | the name is a piece of the class text that starts right after its last dot (or at its start when there is none) |
| `ModelName.GetModelNameSpec` | MLWPY/mlwpy.py:140-142 | the name is the last segment less its last two characters (empty if shorter), so it has no dot |
| `ModelName.GetModelNameExample` | MLWPY/mlwpy.py:140-142 | "<class 'sklearn.svm.SVC'>" gives "SVC" |
| `Reweight.Gcd` | MLWPY/mlwpy.py:263 | Euclid's algorithm returns 0 exactly when both arguments are 0 (its divisibility is in `GcdDivides` and `GcdGreatest`) |
| `Reweight.PyGcd` | MLWPY/mlwpy.py:263 | math.gcd is never negative and is 0 exactly for gcd(0, 0) |
| `Reweight.ReduceGcd` | MLWPY/mlwpy.py:263 | reduce(gcd, counts) is never negative over two or more counts (a single count comes back with its sign), and is 0 exactly when every count is 0 |
| `Reweight.FloorDiv` | MLWPY/mlwpy.py:264 | numpy's `//` is floor division for either sign of the divisor, and gives 0 for a zero divisor |
| `Reweight.Reduced` | MLWPY/mlwpy.py:264 | one reduced count per count; their values are pinned down by `ReducedExact`, `ReducedZero` and `ReducedCoprime` |
| `Reweight.Reweight` | MLWPY/mlwpy.py:262-267 | no counts is the reduce TypeError, and every row of a result is one of the examples; the rest is `ReweightSpec` |
| `Reweight.GcdDivides` | MLWPY/mlwpy.py:252-263 | Euclid's gcd divides both arguments |
| `Reweight.GcdGreatest` | MLWPY/mlwpy.py:252-263 | every common divisor divides Euclid's gcd |
| `Reweight.ReduceGcdDivides` | MLWPY/mlwpy.py:263 | reduce(gcd, counts) divides every count |
| `Reweight.ReduceGcdGreatest` | MLWPY/mlwpy.py:263 | every common divisor of the counts divides reduce(gcd, counts) |
| `Reweight.ReducedExact` | MLWPY/mlwpy.py:263-264 | each reduced count times the gcd is the original count: the division is exact |
| `Reweight.ReducedZero` | MLWPY/mlwpy.py:263-264 | a zero gcd means every count is zero, and every count reduces to zero |
| `Reweight.ReducedCoprime` | MLWPY/mlwpy.py:263-264 | if any count is nonzero, the reduced counts have gcd 1 |
| `Reweight.ReweightSpec` | MLWPY/mlwpy.py:262-267 | no counts is the reduce TypeError. With two or more counts, reweight fails exactly when there is not one count per example or a count is negative. Otherwise example i is repeated reduced[i] times in order, and the output length is the sum of the reduced counts |
| `Reweight.ReweightSingle` | MLWPY/mlwpy.py:262-267 | a single count never fails: every example is kept once, or none when the count is 0 |
| `Reweight.ReweightExample` | MLWPY/mlwpy.py:262-272 | examples [1,10,20] with counts [2,4,6] give [1,10,10,20,20,20] |
| `FromIter.ArrayFromIter` | MLWPY/mlwpy.py:280-285 | it fails with IndexError(shape[0]) exactly when the iterator has more than shape[0] items. Otherwise the array is newly allocated, slot idx holds item idx, and the slots past the last item keep what np.empty left |
| `Classifier.Insert` | MLWPY/mlwpy.py:158 | inserting into a strictly increasing list keeps it strictly increasing and adds exactly that label |
| `Classifier.Unique` | MLWPY/mlwpy.py:158 | np.unique gives the labels strictly increasing, and exactly the labels that occur |
| `Classifier.CountMultiset` | MLWPY/mlwpy.py:163-165 | the number of True entries of the mask, `Count`, is the number of occurrences of the label (its multiset multiplicity) |
| `Classifier.Positions` | MLWPY/mlwpy.py:163 | every listed position of the mask is in range and has the label |
| `Classifier.PositionsIncreasing` | MLWPY/mlwpy.py:163 | the positions are strictly increasing |
| `Classifier.PositionsComplete` | MLWPY/mlwpy.py:163 | every position with the label is among them; with `Positions` this makes them exactly the True entries of the mask, in order |
| `Classifier.Cases` | MLWPY/mlwpy.py:163 | the masked selection has as many rows as there are matching labels, all taken from the features |
| `Classifier.CasesSelect` | MLWPY/mlwpy.py:163 | the masked selection is exactly the feature rows at the True positions of the mask, in their original order |
| `Classifier.Dlda.constructor` | MLWPY/mlwpy.py:154-155 | a new classifier has no labels and no priors |
| `Classifier.Dlda.Fit` | MLWPY/mlwpy.py:157-167 | sets uniq_tgts to np.unique of the labels. Fails with a mask IndexError, leaving the priors empty, exactly when there are labels but rows and labels differ in number. Otherwise the priors map each label to count / len(train_ftrs) |
| `Classifier.CountPositive` | MLWPY/mlwpy.py:162-165 | a label has a positive count exactly when it occurs, so every fitted label has cases |
| `Classifier.PriorsSumToOne` | MLWPY/mlwpy.py:162-165 | with N labels and N rows, every prior has denominator N and the numerators add up to N: the priors sum to exactly 1 |
| `Classifier.PriorsInRange` | MLWPY/mlwpy.py:162-165 | the keys of the priors `Priors` builds are exactly the labels seen, and each numerator is between 1 and len(train_tgts) |
| `Classifier.SumCountsAll` | MLWPY/mlwpy.py:162-165 | the counts of a strictly increasing list that covers every label add up to the number of labels |
| `Classifier.LabelsExample` | MLWPY/mlwpy.py:158-165 | labels [0,0,1,1] give uniq_tgts [0,1], with 2 cases each |

## Left out

- Plotting and display: `plot_boundary`, `plot_separator`, the axis-mutating
  part of `high_school_style`, `plot_lines_and_projections` and `sane_quiver`. They
  are matplotlib calls with nothing to compute.
- Module set-up: warning suppression, print options, the random seed,
  rcParams, the `DataFrame._repr_latex` patch and the marker cycle. This is
  environment configuration.
- `DLDA`'s variance and class means, and `predict`. These are floating-point
  numerics with `np.log`. As written, `predict` also indexes a 1-D array with
  `disc[:, tgt]` and returns a class index, not a label.
- The floating-point start of `reweight` (`1 / min_wgt`, `* 100`,
  `astype(np.int64)`). The model starts from the int64 counts.
- The `np.round(...).astype('int')` steps of `make_ticks`. The model starts
  from the rounded integer limits. Rounding is monotone, so the sorted order
  survives it.
- `rdot`: a one-line `np.dot` wrapper.
- `MLWPY/scripts/NB_memtest.py` and `scripts/NB_memtest.py`: memory profiling,
  dataset loading and scikit-learn's `GaussianNB`, all I/O and foreign code.
- Reweight.Reweight: counts are unbounded integers, so int64 limits are not
  modelled. Since the float step is left out, so is what it does to a zero
  weight: `1 / 0` is inf, and `astype(np.int64)` turns inf and nan into
  `-2**63`. With counts such as `[-2**63, -2**63]` the gcd `2**63` does not fit
  in an int64. Numpy then fails or computes in floating point, in ways
  `np.repeat` rejects. There the model reports `NegativeRepeatCount`.
- Ticks.MakeTicks: `lwr * upr < 0` is taken on unbounded integers. In the
  source both limits are numpy fixed-width integers (int32 where the C long
  has 32 bits), their product wraps around, and the module silences numpy's
  overflow warning. For limits -50000 and 50000 in int32 the product wraps to
  a positive value, so the source keeps 0 where the model leaves it out.
- FromIter.ArrayFromIter: only `shape[0]` is modelled, with an item standing for
  a whole row. Numpy's conversion of items to `dtype`, and its broadcasting of
  an item into a multi-dimensional row, are not modelled. The iterator is a
  finite sequence, so an infinite one is not covered. What `np.empty` leaves
  in the array is a parameter.
- CartesianProduct.CartesianProductMember: states which rows occur, but not
  that each combination occurs exactly once. With more than two arrays, the exact
  row order is defined by `CartesianProduct` itself, but the only lemma about
  that order is for two arrays (`CartesianProductPairAt`). Numpy's dtype
  promotion across arrays of different types, and the flattening of
  multi-dimensional inputs by `meshgrid`, are not modelled.
- EnumerateOuter.EnumerateOuter: the numpy dtype of the result is not
  modelled. Inner lengths are never negative and there is always one count
  per index, so `np.repeat`'s checks always pass, and the model calls the
  unchecked `Repeat` directly.
- Classifier.Dlda.Fit: labels are integers, since `np.unique` needs an order
  on them. `fit` returning `self` is not modelled.
