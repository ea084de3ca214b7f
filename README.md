# Indexed row copies of cudarray's nnet package

This project models the indexed row-copy layer of cudarray's `nnet` package
(`cudarray/nnet/special.py`) in Dafny. The layer has four public entry points:

- `copy_rows(rowids, from_mat, to_mat, map_from)`. With `map_from` it gathers
  rows: `to_mat = from_mat[rowids]`. Otherwise it scatters rows:
  `to_mat[rowids] = from_mat`. When two indices name the same row, the later
  write wins.
- `copy_sum_rows(rowids, from_mat, to_mat, map_from, coefficients, constant, var)`.
  With `map_from` it writes a weighted gather-sum:
  `to_mat[i, k] = Σ_j coef[i, j] * from_mat[rowids[i, j], k]`. Otherwise it
  accumulates into the named rows: `to_mat[rowids[i, j], k] += coef[i, j] * from_mat[i, k]`.
  Without `coefficients` the weight of column `j` is `constant * var^j`. Both
  `constant` and `var` default to 1.
- `one_hot_encode(labels, n_classes, out)` writes the one-hot matrix of the
  labels.
- `one_hot_decode(one_hot, out)` returns the argmax of each row.

Every entry point runs its dtype and shape gates first, in the order the code
uses, and raises a `ValueError` before anything is written. The model returns
`Err` for this. The `Error` value names the argument at fault and, for a shape
error, the shape found and the shape wanted. On `Err` the caller's buffers are
unchanged. Once the gates pass, the entry point writes into the caller's
matrix in place, or into a freshly allocated one, and returns it.

Modules:

- **`RowSpec`** (`row_spec.dfy`) holds value-level definitions over `seq`s.
  It defines `Gather`, `Scatter` (a fold of row overwrites), `LastWriter`,
  `DecayCoefficients`, `WeightedSum`, `Inflow` (the total that
  scatter-accumulate adds to an entry), `ColumnTotal`, `OneHot` and `Argmax`.
  It also holds the lemmas about them.
- **`Special`** (`special.dfy`) holds the entry points. Buffers are Dafny arrays:
  `array2<real>` for matrices and `array<int>` for index and label vectors.
  Each native `nnet` kernel is a sequential loop method, proved to produce
  the `RowSpec` value of its inputs. The same holds for `ArgmaxRows`, which
  stands for the cudarray library call `ca.argmax(..., axis=1)` that
  `one_hot_decode` makes rather than for an `nnet` kernel.
- **`SpecialExamples`** (`special_examples.dfy`) holds worked examples, the
  column totals of scatter-accumulate and the encode/decode round trip. They
  are proved from the entry points' contracts alone.

The source's parameter `var` is named `decay` in the model, because `var` is a
Dafny keyword. Parameters with a default in the source (`map_from=True`,
`coefficients=None`, `constant=1.`, `var=1.`, `out=None`) have the same
default in the model. Matrix elements are mathematical reals, not float32. A
buffer's dtype, which the gates test, is passed as a separate `DType` argument.

The entry points do not share one set of gates. The model follows each one's
code:

- In scatter-accumulate mode `copy_sum_rows` checks neither `to_mat`'s shape nor
  `from_mat`'s row count.
- `copy_rows` requires a `to_mat`; it never allocates one.
- The gates raise one kind of error, `ValueError`, for both dtype and shape
  failures.
- `copy_rows` checks shapes before the dtype of `rowids`, and `copy_sum_rows`
  checks the dtype of `rowids` first.

## Model

| member | source | states |
|---|---|---|
| Special.CopyRows | cudarray/nnet/special.py:49-74 | Shape gate on the indexed side (`to_mat` when gathering, `from_mat` when scattering) first, then the rowids dtype gate, each with its error. Succeeds iff both pass. On error `to` is unchanged. On success it returns `to`. Gathering gives `to[i,k] == from[rowids[i],k]`. Scattering gives `Scatter(old to, from, rowids)`; each row holds its last writer's row, or its old contents when no index names it |
| Special.GatherRows | cudarray/nnet/special.py:51-53 | Copy kernel, gather direction: every entry `to[i,k]` equals `from[rowids[i],k]`, i.e. `Cells(to) == Gather(Cells(from), rowids)` |
| Special.ScatterRows | cudarray/nnet/special.py:55-57 | Copy kernel, scatter direction: `Cells(to)` is the sequential fold `Scatter` of the old contents, and each row holds the row of its last writer or its old contents |
| RowSpec.Gather | cudarray/nnet/special.py:53 | Definition of `from_mat[rowids]`: row i of the result is row `rowids[i]` of the source (no ensures; its meaning is used by GatherRows and the round-trip lemmas) |
| Special.CopyRowsShapeOk | cudarray/nnet/special.py:60-68 | Shape gate of copy_rows: the indexed-side matrix is `(rowids.size, cols of the other)`, `to_mat` when gathering and `from_mat` when scattering (no ensures; used by CopyRows) |
| Special.OverwriteRow | cudarray/nnet/special.py:57 | One row overwrite of the scatter: row `dest` takes row i of the source, and every other entry is unchanged |
| RowSpec.Scatter | cudarray/nnet/special.py:55-57 | Overwriting the named rows one after another keeps the destination's row count |
| RowSpec.LastWriter | cudarray/nnet/special.py:55-57 | The last position naming a row, -1 when none does: that position names the row and no later one does |
| RowSpec.ScatterLastWriteWins | cudarray/nnet/special.py:55-57 | After a scatter, a row named by some index holds the source row of the last such index; any other row is unchanged |
| RowSpec.ScatterShape | cudarray/nnet/special.py:65-68 | A scatter of same-width rows into a matrix keeps it a matrix of the same dimensions |
| RowSpec.ScatterOfGather | cudarray/nnet/special.py:50-58 | Scattering back `from[rowids]` restores every row that rowids names, from the source, and leaves the others |
| RowSpec.GatherOfScatter | cudarray/nnet/special.py:50-58 | With distinct row ids, gathering what was scattered gives back the scattered rows exactly |
| Special.CopySumRows | cudarray/nnet/special.py:78-118 | Gates in order: rowids dtype, `to_mat` shape (gather mode only), coefficients shape, coefficients dtype, each with its error. Succeeds iff all pass. On error `to` is unchanged. Gather mode gives `to[i,k] == Σ_j w[i][j] * from[rowids[i,j],k]`. Accumulate mode gives `to[r,c] == old to[r,c] + Inflow(rowids, w, from, r, c)`. Here `w` is the given coefficients or `constant * decay^j` |
| RowSpec.WeightedSum | cudarray/nnet/special.py:83 | Definition of `Σ_j coefficients[i,j] * from_mat[rowids[i,j],k]` as a sum over ascending j (no ensures; used by GatherSumRows) |
| RowSpec.RowInflow | cudarray/nnet/special.py:87-88 | Definition of what one source row adds to a destination row: `Σ_{j : rowids[i,j] == row} coef[i,j] * from_mat[i,k]` (no ensures; used by ScatterAddRow) |
| RowSpec.Inflow | cudarray/nnet/special.py:87-88 | Definition of everything accumulate mode adds to entry (row, k): `RowInflow` summed over the source rows (no ensures; used by ScatterAddRows) |
| Special.AddScaledRow | cudarray/nnet/special.py:88 | One `+=` step of the accumulation: row `dest` gains `weight * from[i,c]` in every column, and every other entry is unchanged |
| Special.WeightAt | cudarray/nnet/special.py:90-94 | The weight of contribution (i,j): `coefficients[i,j]` when given, else `constant * var^j` (no ensures; Weights states it) |
| Special.CoefficientsFit | cudarray/nnet/special.py:106-108 | Coefficients shape gate: given coefficients have exactly the shape of rowids (no ensures; used by CopySumRows) |
| Special.CopySumRowsAccepts | cudarray/nnet/special.py:100-110 | All four gates of copy_sum_rows pass: rowids is int32, `to_mat` is `(rowids rows, from_mat cols)` in gather mode, coefficients fit and are float32 (no ensures; CopySumRows is Ok iff it holds) |
| Special.RowWeightedSum | cudarray/nnet/special.py:81-83 | One entry of the gather-sum, computed by a loop over j, equals `WeightedSum` of row i's ids and weights at column k |
| Special.GatherSumRow | cudarray/nnet/special.py:81-83 | Row i of `to` becomes the weighted gather-sum of its ids; every other row is unchanged |
| Special.GatherSumRows | cudarray/nnet/special.py:81-83 | Every entry of `to` becomes the weighted gather-sum of its row's ids |
| Special.ScatterAddRow | cudarray/nnet/special.py:85-88 | Adding source row i into the rows its ids name raises each entry by exactly `RowInflow` of that row and column |
| Special.ScatterAddRows | cudarray/nnet/special.py:85-88 | After all source rows, each entry is its old value plus its total `Inflow` |
| Special.Weights | cudarray/nnet/special.py:90-94 | The applied weight matrix has the shape of rowids, and entry (i,j) is `coefficients[i,j]` when given, else `constant * decay^j` |
| RowSpec.DecayCoefficients | cudarray/nnet/special.py:90-92 | The default coefficient matrix has `rows` rows of `count` weights |
| RowSpec.PowOfOne | cudarray/nnet/special.py:94 | Helper (arithmetic fact): `1^j == 1` for every j |
| RowSpec.DefaultCoefficientsAreOne | cudarray/nnet/special.py:90-94 | With the default `constant = var = 1`, every coefficient is 1 |
| RowSpec.UnitWeightsSum | cudarray/nnet/special.py:81-83 | With unit weights the weighted sum is the plain sum of the named rows' entries |
| RowSpec.DefaultGatherSumIsPlainSum | cudarray/nnet/special.py:78-94 | With neither coefficients nor constant/var given, a gather-sum entry is the plain sum `Σ_j from[rowids[i,j],k]` |
| RowSpec.WeightedSumStep | cudarray/nnet/special.py:83 | Helper (unfolds a definition): Extending the sum over j by one term adds `coef[i,j] * from[rowids[i,j],k]` |
| RowSpec.RowInflowStep | cudarray/nnet/special.py:87-88 | Helper (unfolds a definition): Step j of one source row's accumulation adds `coef[i,j] * from[i,k]` to the named row and 0 to every other row |
| RowSpec.InflowStep | cudarray/nnet/special.py:87-88 | Helper (unfolds a definition): Processing source row i adds that row's inflow to the running total |
| RowSpec.RowInflowUntargeted | cudarray/nnet/special.py:87-88 | A row that none of a source row's ids names receives nothing from it |
| RowSpec.InflowUntargeted | cudarray/nnet/special.py:85-88 | A destination row that no id names keeps its old contents in accumulate mode |
| RowSpec.RowInflowTotalStep | cudarray/nnet/special.py:87-88 | Helper (unfolds a definition): Step j of one source row adds `coef[i,j] * from[i,k]` to the column total over the first `rows` rows when `rowids[i,j]` is one of them, and nothing otherwise |
| RowSpec.RowInflowTotalZero | cudarray/nnet/special.py:87-88 | Helper (unfolds a definition): A source row with no ids adds nothing to any row |
| RowSpec.RowInflowConserved | cudarray/nnet/special.py:87-88 | When every id of a source row names a destination row, the rows together receive exactly `Σ_j coef[i,j] * from[i,k]` |
| RowSpec.InflowTotalStep | cudarray/nnet/special.py:85-88 | Helper (unfolds a definition): Processing source row i adds that row's total to the column total over the first `rows` destination rows |
| RowSpec.InflowTotalZero | cudarray/nnet/special.py:85-88 | Helper (unfolds a definition): With no source rows, the column total received is 0 |
| RowSpec.InflowConserved | cudarray/nnet/special.py:85-88 | Accumulate mode conserves every column: when all ids are in range, the destination rows together receive `Σ_i Σ_j coef[i,j] * from[i,k]`, everything the sources send out. |
| RowSpec.AccumulatedColumnTotal | cudarray/nnet/special.py:85-88 | A matrix that gained `Inflow` in every entry of column c gained `InflowTotal` in that column's total |
| RowSpec.AccumulateConservesColumn | cudarray/nnet/special.py:85-88 | When all ids are in range, each column's total after accumulating is its old total plus `Σ_i Σ_j coef[i,j] * from[i,c]` |
| SpecialExamples.AccumulateColumnTotals | cudarray/nnet/special.py:85-88 | On the arrays: `copy_sum_rows` with `map_from=False` and in-range ids grows every column total of `to_mat` by exactly what the source rows send out |
| Special.EncodeAccepts | cudarray/nnet/special.py:22-28 | Gates of one_hot_encode pass: labels are int32 and a given `out` has shape `(labels.size, n_classes)` (no ensures; OneHotEncode is Ok iff it holds) |
| Special.OneHotEncode | cudarray/nnet/special.py:20-30 | Labels dtype gate first, then the shape gate on a given `out`, each with its error. Succeeds iff both pass. On error `out` is unchanged. On success the result, either `out` or a fresh matrix, has shape (labels.size, n_classes) and holds `OneHot(labels, n_classes)` |
| Special.WriteOneHot | cudarray/nnet/special.py:29 | Encoder kernel: every entry of `out` is written, and the matrix equals `OneHot(labels, n_classes)` |
| RowSpec.OneHot | cudarray/nnet/special.py:21 | The one-hot matrix has labels.size rows of n_classes entries: 1 at the label's column and 0 elsewhere |
| RowSpec.OneHotPrefixTotal | cudarray/nnet/special.py:29 | A prefix of a one-hot row sums to 1 if it includes the label's column and to 0 otherwise |
| RowSpec.OneHotRowTotal | cudarray/nnet/special.py:29 | Every one-hot row sums to 1 |
| Special.DecodeAccepts | cudarray/nnet/special.py:37-41 | Gates of one_hot_decode pass: a given `out` is int32 and has shape `(rows of one_hot,)` (no ensures; OneHotDecode is Ok iff it holds) |
| Special.OneHotDecode | cudarray/nnet/special.py:33-43 | For a given `out`: dtype gate, then shape gate, each with its error. Succeeds iff both pass (always when `out` is not given). On error `out` is unchanged. On success the result, either `out` or a fresh vector, has one entry per row, which is that row's `Argmax` |
| Special.ArgmaxRows | cudarray/nnet/special.py:42 | Decoder kernel: `out[i]` is the argmax of row i for every row |
| Special.RowArgmax | cudarray/nnet/special.py:42 | A loop over the columns finds a column holding the row's maximum, with every earlier column strictly smaller, and agrees with `Argmax` |
| RowSpec.Argmax | cudarray/nnet/special.py:42 | The argmax of a non-empty row is a column whose entry is at least every other entry and strictly greater than every earlier one (first maximum wins) |
| RowSpec.DecodeOneHot | cudarray/nnet/special.py:20-43 | The argmax of the one-hot row of a label in range is that label |
| SpecialExamples.GatherExample | cudarray/nnet/special.py:51-53 | Gathering rows [2,0,1] of [[a],[b],[c]] gives [[c],[a],[b]] |
| SpecialExamples.ScatterCollisionExample | cudarray/nnet/special.py:55-57 | Scattering [[x],[y]] to rows [0,0] leaves y in row 0, because the later write wins |
| SpecialExamples.GatherSumExample | cudarray/nnet/special.py:78-94 | With the defaults, summing rows [0,1] of [[10],[20],[30]] gives 30 |
| SpecialExamples.ExampleSum | cudarray/nnet/special.py:90-94 | The value-level sum behind GatherSumExample: unit default weights make it 10 + 20 |
| SpecialExamples.RejectedGatherExample | cudarray/nnet/special.py:60-63 | Gathering three ids into a two-row `to_mat` is refused with the shapes (2,1) vs (3,1), and `to_mat` keeps its contents |
| SpecialExamples.AliasedRejectedExample | cudarray/nnet/special.py:60-70 | A call passing one matrix as both `from_mat` and `to_mat` with non-int rowids is refused by a gate, and the matrix keeps its contents |
| SpecialExamples.EncodeDecodeRoundTrip | cudarray/nnet/special.py:20-43 | Decoding the encoding of labels in [0, n_classes) gives back the labels |

## Left out

- `softmax` and `categorical_cross_entropy` are not modelled. They are floating-point numerics built on other cudarray operations (`exp`, `amax`, `clip`, `log`, reductions), which are not part of this model.
- Float32 arithmetic is not modelled. Matrix entries are reals, so rounding in the sums, in `constant * var^j`, and in the `float()` conversions of `constant` and `var` is not captured.
- GPU execution is not modelled. The kernels are sequential loops in ascending index order. On the device, writes that collide in the scatter directions race, so "last write wins" and the accumulated totals are what the sequential order gives. The code itself calls `map_from=False` unreliable for this reason.
- The native kernel bodies are not part of this model; only their declarations in `include/cudarray/nnet/one_hot.hpp` are shown. Those declarations take flat `numrows × rowsize` buffers, which the model replaces with `array2`. The kernels' effect is taken from the formulas in the docstrings. The model assumes that the encoder writes every entry of its output (1 at the label, 0 elsewhere); the body of `nnet._one_hot_encode` is not part of this model. Under that assumption the fresh matrix from `ca.empty` is modelled by `new` with no assumption about its contents.
- Special.CopyRows: rowids may have any rank in the source and is read flat (`rowids.size`); the model takes the flat vector.
- Special.OneHotEncode: labels may have any rank in the source and is read flat (`labels.size`, line 21); the model takes the flat vector.
- Special.CopyRows, Special.CopySumRows, Special.OneHotEncode, Special.OneHotDecode: the array types fix each array's rank. The matrices are 2-D (`array2<real>`); the index, label and decode-output vectors are 1-D (`array<int>`). So the model cannot express a call with an array of another rank. Its consequences in the source are as follows.
  - An array that a shape gate compares against a tuple, but that has another rank, fails the gate and raises the shape `ValueError`. The model never produces that error. These arrays are `to_mat` when copy_rows gathers (lines 62-63), `from_mat` when it scatters (lines 66-68), `to_mat` in copy_sum_rows gather mode (lines 103-105), `coefficients` (lines 107-108), `out` of one_hot_encode (lines 27-28), and `out` of one_hot_decode, e.g. shape `(n, 1)` (lines 40-41).
  - A 1-D `from_mat` makes `from_mat.shape[1]` fail (lines 61 and 99) before any gate runs.
  - A 1-D `to_mat` in copy_rows scatter mode makes `to_mat.shape[1]` fail at line 65 before any gate runs.
  - A 1-D `rowids` in copy_sum_rows passes every gate and then makes `rowids.shape[1]` fail with an IndexError at line 114.
  - A `one_hot` of rank other than 2 makes `ca.argmax(one_hot, axis=1)` fail at line 42.
- Special.CopyRows, Special.CopySumRows: the source checks no matrix's own dtype, and the model takes every matrix to hold floats.
- Special.CopyRows, Special.CopySumRows: the index ranges that the kernels read and write are caller obligations the source never checks. They are stated as `requires` that apply only when the gates pass. The same holds for the row count of `from_mat` and the column count of `to_mat` in scatter-accumulate mode. It also holds for distinct buffers: `from_mat` must differ from `to_mat`, and in copy_sum_rows `coefficients` must differ from `to_mat`. An aliased call that fails a gate is modelled and returns its error.
- Special.OneHotEncode: labels in `[0, n_classes)` are a caller obligation, stated as a `requires` that applies when the gates pass.
- Special.OneHotDecode: the argmax of a row with no columns is undefined, so a `requires` excludes that case when the gates pass.
- The text of each `ValueError` message is not modelled. The `Error` value carries the argument at fault and the two shapes instead.
