/**
 * The meaning of the indexed row operations of cudarray's nnet layer, on values.
 * A matrix is a sequence of rows; row i of a matrix with `cols` columns is a
 * sequence of `cols` entries. Entries are reals, so sums and powers are exact.
 */
module RowSpec {

  /** m has exactly `rows` rows of `cols` entries each. */
  predicate IsMatrix<T>(m: seq<seq<T>>, rows: nat, cols: nat) {
    |m| == rows && forall i :: 0 <= i < rows ==> |m[i]| == cols
  }

  /** Every index names one of the n rows of the matrix it is applied to. */
  predicate InRange(ids: seq<int>, n: nat) {
    forall j :: 0 <= j < |ids| ==> 0 <= ids[j] < n
  }

  /** Every row of a 2-D index array is InRange. */
  predicate AllInRange(ids: seq<seq<int>>, n: nat) {
    forall i :: 0 <= i < |ids| ==> InRange(ids[i], n)
  }

  /** Column k exists in every row of m. */
  predicate HasColumn(m: seq<seq<real>>, k: nat) {
    forall i :: 0 <= i < |m| ==> k < |m[i]|
  }

  // ----------------------------------------------------------------------
  // copy_rows
  // ----------------------------------------------------------------------

  /** Gather, `to_mat = from_mat[rowids]`: row i of the result is row ids[i] of src. */
  function Gather<T>(src: seq<seq<T>>, ids: seq<int>): seq<seq<T>>
    requires InRange(ids, |src|)
  {
    seq(|ids|, i requires 0 <= i < |ids| => src[ids[i]])
  }

  /**
   * Scatter, `to_mat[rowids] = from_mat`: source row i overwrites destination
   * row ids[i], for i = 0, 1, ... in ascending order.
   */
  function Scatter<T>(dst: seq<seq<T>>, src: seq<seq<T>>, ids: seq<int>): (r: seq<seq<T>>)
    requires InRange(ids, |dst|) && |ids| <= |src|
    ensures |r| == |dst|
    decreases |ids|
  {
    if ids == [] then dst
    else
      var n := |ids| - 1;
      Scatter(dst, src, ids[..n])[ids[n] := src[n]]
  }

  /** The largest position of ids that names row `row`, or -1 when none does. */
  function LastWriter(ids: seq<int>, row: int): (w: int)
    ensures -1 <= w < |ids|
    ensures w >= 0 ==> ids[w] == row
    ensures forall j :: w < j < |ids| ==> ids[j] != row
    decreases |ids|
  {
    if ids == [] then -1
    else if ids[|ids| - 1] == row then |ids| - 1
    else LastWriter(ids[..|ids| - 1], row)
  }

  /**
   * Last write wins: after a scatter, a destination row named in ids holds the
   * source row at the largest position naming it; any other row is unchanged.
   */
  lemma {:induction false} ScatterLastWriteWins<T>(dst: seq<seq<T>>, src: seq<seq<T>>, ids: seq<int>, row: nat)
    requires InRange(ids, |dst|) && |ids| <= |src| && row < |dst|
    ensures var w := LastWriter(ids, row);
            Scatter(dst, src, ids)[row] == if w >= 0 then src[w] else dst[row]
    decreases |ids|
  {
    if ids != [] {
      var n := |ids| - 1;
      ScatterLastWriteWins(dst, src, ids[..n], row);
    }
  }

  /** A scatter of rows as wide as the destination's keeps the destination's shape. */
  lemma {:induction false} ScatterShape(dst: seq<seq<real>>, src: seq<seq<real>>, ids: seq<int>, rows: nat, cols: nat)
    requires IsMatrix(dst, rows, cols) && InRange(ids, rows)
    requires |ids| <= |src| && forall i :: 0 <= i < |ids| ==> |src[i]| == cols
    ensures IsMatrix(Scatter(dst, src, ids), rows, cols)
  {
    forall row | 0 <= row < rows
      ensures |Scatter(dst, src, ids)[row]| == cols
    {
      ScatterLastWriteWins(dst, src, ids, row);
    }
  }

  /**
   * Scattering the rows just gathered with the same indices writes every
   * named row back with its own contents, duplicates included.
   */
  lemma {:induction false} ScatterOfGather<T>(dst: seq<seq<T>>, src: seq<seq<T>>, ids: seq<int>, row: nat)
    requires InRange(ids, |dst|) && InRange(ids, |src|) && row < |dst|
    ensures Scatter(dst, Gather(src, ids), ids)[row] == if row in ids then src[row] else dst[row]
  {
    ScatterLastWriteWins(dst, Gather(src, ids), ids, row);
    var w := LastWriter(ids, row);
    if row in ids {
      var p :| 0 <= p < |ids| && ids[p] == row;
      assert w >= p;
    }
  }

  /**
   * Gathering the rows just scattered returns them, provided no destination
   * row is named twice (otherwise the earlier writes are lost).
   */
  lemma {:induction false} GatherOfScatter<T>(dst: seq<seq<T>>, src: seq<seq<T>>, ids: seq<int>)
    requires InRange(ids, |dst|) && |ids| == |src|
    requires forall p, q :: 0 <= p < q < |ids| ==> ids[p] != ids[q]
    ensures Gather(Scatter(dst, src, ids), ids) == src
  {
    var g := Gather(Scatter(dst, src, ids), ids);
    forall i | 0 <= i < |ids|
      ensures g[i] == src[i]
    {
      ScatterLastWriteWins(dst, src, ids, ids[i]);
      var w := LastWriter(ids, ids[i]);
      assert w >= i;
      assert w == i;
    }
  }

  // ----------------------------------------------------------------------
  // copy_sum_rows
  // ----------------------------------------------------------------------

  /** x raised to the n-th power. */
  function Pow(x: real, n: nat): real
    decreases n
  {
    if n == 0 then 1.0 else x * Pow(x, n - 1)
  }

  lemma {:induction false} PowOfOne(n: nat)
    ensures Pow(1.0, n) == 1.0
    decreases n
  {
    if n > 0 {
      PowOfOne(n - 1);
    }
  }

  /** The coefficients used when none are given: coefficient[i, j] = constant * decay^j. */
  function DecayCoefficients(rows: nat, count: nat, constant: real, decay: real): (c: seq<seq<real>>)
    ensures IsMatrix(c, rows, count)
  {
    seq(rows, i => seq(count, j requires 0 <= j < count => constant * Pow(decay, j)))
  }

  /** With the default constant = var = 1 every contribution has weight one. */
  lemma DefaultCoefficientsAreOne(rows: nat, count: nat)
    ensures forall i, j :: 0 <= i < rows && 0 <= j < count ==>
              DecayCoefficients(rows, count, 1.0, 1.0)[i][j] == 1.0
  {
    forall j: nat | j < count
      ensures Pow(1.0, j) == 1.0
    {
      PowOfOne(j);
    }
  }

  /** Σ_j w[j] * src[ids[j]][k]: one entry of a weighted gather-sum. */
  function WeightedSum(src: seq<seq<real>>, ids: seq<int>, w: seq<real>, k: nat): real
    requires |w| == |ids| && InRange(ids, |src|) && HasColumn(src, k)
    decreases |ids|
  {
    if ids == [] then 0.0
    else
      var n := |ids| - 1;
      WeightedSum(src, ids[..n], w[..n], k) + w[n] * src[ids[n]][k]
  }

  /** Extending the selection by one index adds that index's weighted entry. */
  lemma WeightedSumStep(src: seq<seq<real>>, ids: seq<int>, w: seq<real>, k: nat, j: nat, weight: real, x: real)
    requires |w| == |ids| && InRange(ids, |src|) && HasColumn(src, k) && j < |ids|
    requires w[j] == weight && src[ids[j]][k] == x
    ensures WeightedSum(src, ids[..j + 1], w[..j + 1], k) == WeightedSum(src, ids[..j], w[..j], k) + weight * x
  {
    assert ids[..j + 1][..j] == ids[..j];
    assert w[..j + 1][..j] == w[..j];
  }

  /** Σ_j src[ids[j]][k]: the plain sum of the selected rows, at column k. */
  function PlainSum(src: seq<seq<real>>, ids: seq<int>, k: nat): real
    requires InRange(ids, |src|) && HasColumn(src, k)
    decreases |ids|
  {
    if ids == [] then 0.0
    else
      var n := |ids| - 1;
      PlainSum(src, ids[..n], k) + src[ids[n]][k]
  }

  /** With every weight equal to one, the weighted gather-sum is the plain sum. */
  lemma {:induction false} UnitWeightsSum(src: seq<seq<real>>, ids: seq<int>, w: seq<real>, k: nat)
    requires |w| == |ids| && InRange(ids, |src|) && HasColumn(src, k)
    requires forall j :: 0 <= j < |w| ==> w[j] == 1.0
    ensures WeightedSum(src, ids, w, k) == PlainSum(src, ids, k)
    decreases |ids|
  {
    if ids != [] {
      var n := |ids| - 1;
      UnitWeightsSum(src, ids[..n], w[..n], k);
    }
  }

  /**
   * copy_sum_rows with no coefficients and the default constant and var sums the
   * selected rows without weighting them.
   */
  lemma DefaultGatherSumIsPlainSum(src: seq<seq<real>>, ids: seq<seq<int>>, count: nat, i: nat, k: nat)
    requires IsMatrix(ids, |ids|, count) && AllInRange(ids, |src|) && HasColumn(src, k) && i < |ids|
    ensures WeightedSum(src, ids[i], DecayCoefficients(|ids|, count, 1.0, 1.0)[i], k) == PlainSum(src, ids[i], k)
  {
    DefaultCoefficientsAreOne(|ids|, count);
    UnitWeightsSum(src, ids[i], DecayCoefficients(|ids|, count, 1.0, 1.0)[i], k);
  }

  /** What one row of contributions adds to destination row `row`: Σ_{j : ids[j] == row} w[j] * x. */
  function RowInflow(ids: seq<int>, w: seq<real>, x: real, row: int): real
    requires |w| == |ids|
    decreases |ids|
  {
    if ids == [] then 0.0
    else
      var n := |ids| - 1;
      RowInflow(ids[..n], w[..n], x, row) + (if ids[n] == row then w[n] * x else 0.0)
  }

  /** Rows i contributes src[i][c] with weights w[i] to the destinations ids[i]. */
  predicate Contributions(ids: seq<seq<int>>, w: seq<seq<real>>, src: seq<seq<real>>, c: nat) {
    |w| == |ids| && |ids| <= |src| &&
    forall i :: 0 <= i < |ids| ==> |w[i]| == |ids[i]| && c < |src[i]|
  }

  /**
   * Everything a weighted scatter-accumulate adds to entry (row, c):
   * Σ_i Σ_{j : ids[i][j] == row} w[i][j] * src[i][c].
   */
  function Inflow(ids: seq<seq<int>>, w: seq<seq<real>>, src: seq<seq<real>>, row: int, c: nat): real
    requires Contributions(ids, w, src, c)
    decreases |ids|
  {
    if ids == [] then 0.0
    else
      var n := |ids| - 1;
      Inflow(ids[..n], w[..n], src, row, c) + RowInflow(ids[n], w[n], src[n][c], row)
  }

  /** Extending one row of contributions by index j adds its weighted entry to row ids[j] only. */
  lemma RowInflowStep(ids: seq<int>, w: seq<real>, x: real, row: int, j: nat, weight: real)
    requires |w| == |ids| && j < |ids| && w[j] == weight
    ensures RowInflow(ids[..j + 1], w[..j + 1], x, row)
            == RowInflow(ids[..j], w[..j], x, row) + (if ids[j] == row then weight * x else 0.0)
  {
    assert ids[..j + 1][..j] == ids[..j];
    assert w[..j + 1][..j] == w[..j];
  }

  /** Extending the contributions by source row i adds that row's RowInflow. */
  lemma InflowStep(ids: seq<seq<int>>, w: seq<seq<real>>, src: seq<seq<real>>, row: int, c: nat, i: nat)
    requires Contributions(ids, w, src, c) && i < |ids|
    ensures Inflow(ids[..i + 1], w[..i + 1], src, row, c)
            == Inflow(ids[..i], w[..i], src, row, c) + RowInflow(ids[i], w[i], src[i][c], row)
  {
    assert ids[..i + 1][..i] == ids[..i];
    assert w[..i + 1][..i] == w[..i];
  }

  lemma {:induction false} RowInflowUntargeted(ids: seq<int>, w: seq<real>, x: real, row: int)
    requires |w| == |ids| && forall j :: 0 <= j < |ids| ==> ids[j] != row
    ensures RowInflow(ids, w, x, row) == 0.0
    decreases |ids|
  {
    if ids != [] {
      var n := |ids| - 1;
      RowInflowUntargeted(ids[..n], w[..n], x, row);
    }
  }

  /** A destination row that no index names receives nothing: it keeps its contents. */
  lemma {:induction false} InflowUntargeted(ids: seq<seq<int>>, w: seq<seq<real>>, src: seq<seq<real>>, row: int, c: nat)
    requires Contributions(ids, w, src, c)
    requires forall i, j :: 0 <= i < |ids| && 0 <= j < |ids[i]| ==> ids[i][j] != row
    ensures Inflow(ids, w, src, row, c) == 0.0
    decreases |ids|
  {
    if ids != [] {
      var n := |ids| - 1;
      InflowUntargeted(ids[..n], w[..n], src, row, c);
      RowInflowUntargeted(ids[n], w[n], src[n][c], row);
    }
  }

  /** Σ_j w[j] * x: everything one source entry x sends out with weights w. */
  function Outflow(w: seq<real>, x: real): real
    decreases |w|
  {
    if w == [] then 0.0
    else
      var n := |w| - 1;
      Outflow(w[..n], x) + w[n] * x
  }

  /** Σ_i Outflow(w[i], src[i][c]): everything column c of the source rows sends out. */
  function TotalOutflow(w: seq<seq<real>>, src: seq<seq<real>>, c: nat): real
    requires |w| <= |src| && forall i :: 0 <= i < |w| ==> c < |src[i]|
    decreases |w|
  {
    if w == [] then 0.0
    else
      var n := |w| - 1;
      TotalOutflow(w[..n], src, c) + Outflow(w[n], src[n][c])
  }

  /** Σ_{row < rows} RowInflow(ids, w, x, row): what one source entry adds to the first `rows` rows. */
  function RowInflowTotal(ids: seq<int>, w: seq<real>, x: real, rows: nat): real
    requires |w| == |ids|
  {
    if rows == 0 then 0.0 else RowInflowTotal(ids, w, x, rows - 1) + RowInflow(ids, w, x, rows - 1)
  }

  /** Σ_{row < rows} Inflow(ids, w, src, row, c): what column c of the first `rows` rows receives. */
  function InflowTotal(ids: seq<seq<int>>, w: seq<seq<real>>, src: seq<seq<real>>, c: nat, rows: nat): real
    requires Contributions(ids, w, src, c)
  {
    if rows == 0 then 0.0 else InflowTotal(ids, w, src, c, rows - 1) + Inflow(ids, w, src, rows - 1, c)
  }

  /** Index j adds its weighted entry v to exactly one of the first `rows` rows, when it names one. */
  lemma {:induction false} RowInflowTotalStep(ids: seq<int>, w: seq<real>, x: real, rows: nat, j: nat, v: real)
    requires |w| == |ids| && j < |ids| && v == w[j] * x
    ensures RowInflowTotal(ids[..j + 1], w[..j + 1], x, rows)
            == RowInflowTotal(ids[..j], w[..j], x, rows) + (if 0 <= ids[j] < rows then v else 0.0)
  {
    if rows > 0 {
      RowInflowTotalStep(ids, w, x, rows - 1, j, v);
      RowInflowStep(ids, w, x, rows - 1, j, w[j]);
    }
  }

  /** With no contributions, no row receives anything. */
  lemma {:induction false} RowInflowTotalZero(ids: seq<int>, w: seq<real>, x: real, rows: nat)
    requires |w| == |ids| && ids == []
    ensures RowInflowTotal(ids, w, x, rows) == 0.0
  {
    if rows > 0 {
      RowInflowTotalZero(ids, w, x, rows - 1);
    }
  }

  /** When every index names one of the rows, nothing one source entry sends out is lost. */
  lemma {:induction false} RowInflowConserved(ids: seq<int>, w: seq<real>, x: real, rows: nat)
    requires |w| == |ids| && InRange(ids, rows)
    ensures RowInflowTotal(ids, w, x, rows) == Outflow(w, x)
    decreases |ids|
  {
    if ids == [] {
      RowInflowTotalZero(ids, w, x, rows);
    } else {
      var n := |ids| - 1;
      RowInflowConserved(ids[..n], w[..n], x, rows);
      RowInflowTotalStep(ids, w, x, rows, n, w[n] * x);
      assert ids[..n + 1] == ids && w[..n + 1] == w;
    }
  }

  /** Source row i adds its own RowInflowTotal to the total over the first `rows` rows. */
  lemma {:induction false} InflowTotalStep(ids: seq<seq<int>>, w: seq<seq<real>>, src: seq<seq<real>>, c: nat, rows: nat, i: nat)
    requires Contributions(ids, w, src, c) && i < |ids|
    ensures InflowTotal(ids[..i + 1], w[..i + 1], src, c, rows)
            == InflowTotal(ids[..i], w[..i], src, c, rows) + RowInflowTotal(ids[i], w[i], src[i][c], rows)
  {
    if rows > 0 {
      InflowTotalStep(ids, w, src, c, rows - 1, i);
      InflowStep(ids, w, src, rows - 1, c, i);
    }
  }

  /** With no source rows, no row receives anything. */
  lemma {:induction false} InflowTotalZero(ids: seq<seq<int>>, w: seq<seq<real>>, src: seq<seq<real>>, c: nat, rows: nat)
    requires Contributions(ids, w, src, c) && ids == []
    ensures InflowTotal(ids, w, src, c, rows) == 0.0
  {
    if rows > 0 {
      InflowTotalZero(ids, w, src, c, rows - 1);
    }
  }

  /**
   * Scatter-accumulate conserves every column: when every index names one of
   * the destination's rows, what column c of the destination receives in total
   * is exactly what the source rows send out, Σ_i Σ_j w[i][j] * src[i][c].
   */
  lemma {:induction false} InflowConserved(ids: seq<seq<int>>, w: seq<seq<real>>, src: seq<seq<real>>, c: nat, rows: nat)
    requires Contributions(ids, w, src, c) && AllInRange(ids, rows)
    ensures InflowTotal(ids, w, src, c, rows) == TotalOutflow(w, src, c)
    decreases |ids|
  {
    if ids == [] {
      InflowTotalZero(ids, w, src, c, rows);
    } else {
      var n := |ids| - 1;
      InflowConserved(ids[..n], w[..n], src, c, rows);
      InflowTotalStep(ids, w, src, c, rows, n);
      RowInflowConserved(ids[n], w[n], src[n][c], rows);
      assert ids[..n + 1] == ids && w[..n + 1] == w;
    }
  }

  /** Σ_{r < rows} m[r][c]: the total of column c over the first `rows` rows. */
  function ColumnTotal(m: seq<seq<real>>, c: nat, rows: nat): real
    requires rows <= |m| && HasColumn(m, c)
  {
    if rows == 0 then 0.0 else ColumnTotal(m, c, rows - 1) + m[rows - 1][c]
  }

  /**
   * A matrix that gained Inflow(…, r, c) in every entry (r, c) of column c
   * gained InflowTotal in that column's total.
   */
  lemma {:induction false} AccumulatedColumnTotal(before: seq<seq<real>>, after: seq<seq<real>>,
                                                  ids: seq<seq<int>>, w: seq<seq<real>>, src: seq<seq<real>>,
                                                  c: nat, rows: nat)
    requires rows <= |before| && rows <= |after| && HasColumn(before, c) && HasColumn(after, c)
    requires Contributions(ids, w, src, c)
    requires forall r :: 0 <= r < rows ==> after[r][c] == before[r][c] + Inflow(ids, w, src, r, c)
    ensures ColumnTotal(after, c, rows) == ColumnTotal(before, c, rows) + InflowTotal(ids, w, src, c, rows)
  {
    if rows > 0 {
      AccumulatedColumnTotal(before, after, ids, w, src, c, rows - 1);
    }
  }

  /**
   * After a scatter-accumulate whose indices all name rows of the destination,
   * each column's total is its old total plus everything the sources send out.
   */
  lemma {:induction false} AccumulateConservesColumn(before: seq<seq<real>>, after: seq<seq<real>>,
                                  ids: seq<seq<int>>, w: seq<seq<real>>, src: seq<seq<real>>, c: nat)
    requires |before| == |after| && HasColumn(before, c) && HasColumn(after, c)
    requires Contributions(ids, w, src, c) && AllInRange(ids, |after|)
    requires forall r :: 0 <= r < |after| ==> after[r][c] == before[r][c] + Inflow(ids, w, src, r, c)
    ensures ColumnTotal(after, c, |after|) == ColumnTotal(before, c, |before|) + TotalOutflow(w, src, c)
  {
    AccumulatedColumnTotal(before, after, ids, w, src, c, |after|);
    InflowConserved(ids, w, src, c, |after|);
  }

  // ----------------------------------------------------------------------
  // one_hot_encode / one_hot_decode
  // ----------------------------------------------------------------------

  /** The one-hot matrix of labels: row i has 1 in column labels[i] and 0 elsewhere. */
  function OneHot(labels: seq<int>, n: nat): (m: seq<seq<real>>)
    ensures IsMatrix(m, |labels|, n)
  {
    seq(|labels|, i requires 0 <= i < |labels| => seq(n, c => if c == labels[i] then 1.0 else 0.0))
  }

  /** The sum of the entries of a row. */
  function RowTotal(row: seq<real>): real
    decreases |row|
  {
    if row == [] then 0.0 else RowTotal(row[..|row| - 1]) + row[|row| - 1]
  }

  lemma {:induction false} OneHotPrefixTotal(labels: seq<int>, n: nat, i: nat, c: nat)
    requires InRange(labels, n) && i < |labels| && c <= n
    ensures RowTotal(OneHot(labels, n)[i][..c]) == if labels[i] < c then 1.0 else 0.0
    decreases c
  {
    var row := OneHot(labels, n)[i];
    if c > 0 {
      OneHotPrefixTotal(labels, n, i, c - 1);
      assert row[..c][..c - 1] == row[..c - 1];
    }
  }

  /** Every row of an encoded label vector sums to one. */
  lemma OneHotRowTotal(labels: seq<int>, n: nat, i: nat)
    requires InRange(labels, n) && i < |labels|
    ensures RowTotal(OneHot(labels, n)[i]) == 1.0
  {
    OneHotPrefixTotal(labels, n, i, n);
    assert OneHot(labels, n)[i][..n] == OneHot(labels, n)[i];
  }

  /**
   * Row-wise argmax: the position of the largest entry of a non-empty row,
   * the lowest such position when several entries tie.
   */
  function Argmax(row: seq<real>): (k: nat)
    requires |row| > 0
    ensures k < |row|
    ensures forall j :: 0 <= j < |row| ==> row[j] <= row[k]
    ensures forall j :: 0 <= j < k ==> row[j] < row[k]
    decreases |row|
  {
    if |row| == 1 then 0
    else
      var n := |row| - 1;
      var k := Argmax(row[..n]);
      if row[n] > row[k] then n else k
  }

  /** Decoding an encoded label vector gives the labels back. */
  lemma DecodeOneHot(labels: seq<int>, n: nat, i: nat)
    requires InRange(labels, n) && i < |labels|
    ensures Argmax(OneHot(labels, n)[i]) == labels[i]
  {
    var row := OneHot(labels, n)[i];
    assert row[labels[i]] == 1.0;
  }
}
