/**
 * The indexed row-copy layer of cudarray's nnet package: copy_rows,
 * copy_sum_rows, one_hot_encode and one_hot_decode. Each entry point first
 * runs the source's dtype and shape gates, in the source's order, and fails
 * with an Error that leaves every buffer untouched; only then does it write
 * into the caller's matrix (or into a freshly allocated one).
 *
 * The native nnet kernels behind the entry points are modelled by the
 * methods GatherRows, ScatterRows, GatherSumRows, ScatterAddRows and
 * WriteOneHot, and the cudarray library's row-wise argmax, which
 * one_hot_decode calls, by ArgmaxRows: sequential loops whose effect is the
 * one the entry points document, stated against the value-level definitions
 * of RowSpec. Parameters with a default in the source have the same default
 * here.
 */
module Special {
  import opened RowSpec

  /** The two element types the gates tell apart. */
  datatype DType = Int32 | Float32

  /** The argument a gate complains about. */
  datatype Arg = RowIds | FromMat | ToMat | Coefficients | Labels | Out

  /** The ValueError a gate raises: a wrong dtype, or a shape other than the one required. */
  datatype Error =
    | DTypeMismatch(arg: Arg)
    | ShapeMismatch(arg: Arg, got: seq<nat>, want: seq<nat>)

  datatype Option<T> = None | Some(value: T)

  datatype Result<T> = Ok(value: T) | Err(error: Error)

  /** The shape tuple of a matrix. */
  function Dims<T>(m: array2<T>): seq<nat> {
    [m.Length0, m.Length1]
  }

  /** The contents of a matrix, row by row. */
  ghost function Cells<T>(m: array2<T>): (v: seq<seq<T>>)
    reads m
    ensures IsMatrix(v, m.Length0, m.Length1)
    ensures forall i, j :: 0 <= i < m.Length0 && 0 <= j < m.Length1 ==> v[i][j] == m[i, j]
  {
    seq(m.Length0, i requires 0 <= i < m.Length0 reads m =>
      seq(m.Length1, j requires 0 <= j < m.Length1 reads m => m[i, j]))
  }

  /** A matrix whose every entry agrees with v holds exactly v. */
  lemma CellsAre<T>(m: array2<T>, v: seq<seq<T>>)
    requires IsMatrix(v, m.Length0, m.Length1)
    requires forall i, j :: 0 <= i < m.Length0 && 0 <= j < m.Length1 ==> m[i, j] == v[i][j]
    ensures Cells(m) == v
  {
    var c := Cells(m);
    forall i | 0 <= i < m.Length0
      ensures c[i] == v[i]
    {
      assert forall j :: 0 <= j < m.Length1 ==> c[i][j] == v[i][j];
    }
  }

  /** Every entry of a 2-D index array names one of n rows. */
  predicate IndicesBelow(rowids: array2<int>, n: nat)
    reads rowids
  {
    forall i, j :: 0 <= i < rowids.Length0 && 0 <= j < rowids.Length1 ==> 0 <= rowids[i, j] < n
  }

  // ----------------------------------------------------------------------
  // copy_rows
  // ----------------------------------------------------------------------

  /** The shape gate of copy_rows: the matrix on the indexed side must be (rowids.size, cols of the other). */
  predicate CopyRowsShapeOk(rowids: array<int>, from: array2<real>, to: array2<real>, mapFrom: bool) {
    if mapFrom then Dims(to) == [rowids.Length, from.Length1]
    else Dims(from) == [rowids.Length, to.Length1]
  }

  /** Gather kernel: row i of `to` becomes row rowids[i] of `from`. */
  method GatherRows(rowids: array<int>, from: array2<real>, to: array2<real>)
    requires from != to
    requires Dims(to) == [rowids.Length, from.Length1]
    requires InRange(rowids[..], from.Length0)
    modifies to
    ensures forall i, k :: 0 <= i < to.Length0 && 0 <= k < to.Length1 ==> to[i, k] == from[rowids[i], k]
    ensures Cells(to) == Gather(Cells(from), rowids[..])
  {
    for i := 0 to rowids.Length
      invariant forall i', k :: 0 <= i' < i && 0 <= k < to.Length1 ==> to[i', k] == from[rowids[i'], k]
    {
      for k := 0 to to.Length1
        invariant forall i', k' :: 0 <= i' < i && 0 <= k' < to.Length1 ==> to[i', k'] == from[rowids[i'], k']
        invariant forall k' :: 0 <= k' < k ==> to[i, k'] == from[rowids[i], k']
      {
        to[i, k] := from[rowids[i], k];
      }
    }
    CellsAre(to, Gather(Cells(from), rowids[..]));
  }

  /** Row dest of `to` becomes row i of `from`; every other entry is kept. */
  method OverwriteRow(from: array2<real>, i: nat, to: array2<real>, dest: nat)
    requires from != to
    requires i < from.Length0 && dest < to.Length0 && to.Length1 == from.Length1
    modifies to
    ensures forall row, c :: 0 <= row < to.Length0 && 0 <= c < to.Length1 ==>
              to[row, c] == if row == dest then from[i, c] else old(to[row, c])
  {
    for k := 0 to to.Length1
      invariant forall row, c :: 0 <= row < to.Length0 && 0 <= c < to.Length1 ==>
                  to[row, c] == if row == dest && c < k then from[i, c] else old(to[row, c])
    {
      to[dest, k] := from[i, k];
    }
  }

  /**
   * Scatter kernel: for i = 0, 1, ... in ascending order, row rowids[i] of `to`
   * is overwritten with row i of `from`; the last write to a row wins.
   */
  method ScatterRows(rowids: array<int>, from: array2<real>, to: array2<real>)
    requires from != to
    requires Dims(from) == [rowids.Length, to.Length1]
    requires InRange(rowids[..], to.Length0)
    modifies to
    ensures Cells(to) == Scatter(old(Cells(to)), Cells(from), rowids[..])
    ensures forall row, k :: 0 <= row < to.Length0 && 0 <= k < to.Length1 ==>
              to[row, k] == (var w := LastWriter(rowids[..], row); if w >= 0 then from[w, k] else old(to[row, k]))
  {
    ghost var before := Cells(to);
    ghost var src := Cells(from);
    ghost var ids := rowids[..];
    for i := 0 to rowids.Length
      invariant IsMatrix(Scatter(before, src, ids[..i]), to.Length0, to.Length1)
      invariant forall row, c :: 0 <= row < to.Length0 && 0 <= c < to.Length1 ==>
                  to[row, c] == Scatter(before, src, ids[..i])[row][c]
    {
      OverwriteRow(from, i, to, rowids[i]);
      assert ids[..i + 1][..i] == ids[..i];
      ScatterShape(before, src, ids[..i + 1], to.Length0, to.Length1);
    }
    assert ids[..rowids.Length] == ids;
    CellsAre(to, Scatter(before, src, ids));
    forall row | 0 <= row < to.Length0
      ensures var w := LastWriter(ids, row);
              Cells(to)[row] == if w >= 0 then src[w] else before[row]
    {
      ScatterLastWriteWins(before, src, ids, row);
    }
  }

  /**
   * copy_rows(rowids, from_mat, to_mat, map_from). With mapFrom it gathers,
   * to_mat = from_mat[rowids]; otherwise it scatters, to_mat[rowids] = from_mat.
   * The shape of the indexed-side matrix is checked before the dtype of rowids.
   */
  method CopyRows(rowids: array<int>, rowidsType: DType, from: array2<real>, to: array2<real>, mapFrom: bool := true)
    returns (r: Result<array2<real>>)
    requires CopyRowsShapeOk(rowids, from, to, mapFrom) && rowidsType == Int32 ==>
               from != to && InRange(rowids[..], if mapFrom then from.Length0 else to.Length0)
    modifies to
    ensures mapFrom && Dims(to) != [rowids.Length, from.Length1] ==>
              r == Err(ShapeMismatch(ToMat, Dims(to), [rowids.Length, from.Length1]))
    ensures !mapFrom && Dims(from) != [rowids.Length, to.Length1] ==>
              r == Err(ShapeMismatch(FromMat, Dims(from), [rowids.Length, to.Length1]))
    ensures CopyRowsShapeOk(rowids, from, to, mapFrom) && rowidsType != Int32 ==>
              r == Err(DTypeMismatch(RowIds))
    ensures r.Ok? <==> CopyRowsShapeOk(rowids, from, to, mapFrom) && rowidsType == Int32
    ensures r.Err? ==> unchanged(to)
    ensures r.Ok? ==> r.value == to
    ensures r.Ok? && mapFrom ==>
              forall i, k :: 0 <= i < to.Length0 && 0 <= k < to.Length1 ==> to[i, k] == from[rowids[i], k]
    ensures r.Ok? && !mapFrom ==> Cells(to) == Scatter(old(Cells(to)), Cells(from), rowids[..])
    ensures r.Ok? && !mapFrom ==>
              forall row, k :: 0 <= row < to.Length0 && 0 <= k < to.Length1 ==>
                to[row, k] == (var w := LastWriter(rowids[..], row); if w >= 0 then from[w, k] else old(to[row, k]))
  {
    if mapFrom {
      var shape := [rowids.Length, from.Length1];
      if Dims(to) != shape {
        return Err(ShapeMismatch(ToMat, Dims(to), shape));
      }
    } else {
      var shape := [rowids.Length, to.Length1];
      if Dims(from) != shape {
        return Err(ShapeMismatch(FromMat, Dims(from), shape));
      }
    }
    if rowidsType != Int32 {
      return Err(DTypeMismatch(RowIds));
    }
    if mapFrom {
      GatherRows(rowids, from, to);
    } else {
      ScatterRows(rowids, from, to);
    }
    return Ok(to);
  }

  // ----------------------------------------------------------------------
  // copy_sum_rows
  // ----------------------------------------------------------------------

  /** The weight of contribution (i, j): coefficients[i, j] when given, else constant * decay^j. */
  function WeightAt(coefficients: Option<array2<real>>, constant: real, decay: real, i: nat, j: nat): real
    reads if coefficients.Some? then {coefficients.value} else {}
    requires coefficients.Some? ==> i < coefficients.value.Length0 && j < coefficients.value.Length1
  {
    match coefficients
    case Some(c) => c[i, j]
    case None => constant * Pow(decay, j)
  }

  /** The coefficient matrix copy_sum_rows applies: the one given, or the decay matrix. */
  ghost function Weights(rowids: array2<int>, coefficients: Option<array2<real>>, constant: real, decay: real): (w: seq<seq<real>>)
    reads if coefficients.Some? then {coefficients.value} else {}
    ensures CoefficientsFit(rowids, coefficients) ==>
              IsMatrix(w, rowids.Length0, rowids.Length1) &&
              forall i, j :: 0 <= i < rowids.Length0 && 0 <= j < rowids.Length1 ==>
                w[i][j] == WeightAt(coefficients, constant, decay, i, j)
  {
    match coefficients
    case Some(c) => Cells(c)
    case None => DecayCoefficients(rowids.Length0, rowids.Length1, constant, decay)
  }

  /** Given coefficients have exactly the shape of rowids. */
  predicate CoefficientsFit(rowids: array2<int>, coefficients: Option<array2<real>>) {
    coefficients.Some? ==> Dims(coefficients.value) == Dims(rowids)
  }

  /** Every gate of copy_sum_rows passes. */
  predicate CopySumRowsAccepts(rowids: array2<int>, rowidsType: DType, from: array2<real>, to: array2<real>,
                               mapFrom: bool, coefficients: Option<array2<real>>, coefType: DType)
  {
    && rowidsType == Int32
    && (mapFrom ==> Dims(to) == [rowids.Length0, from.Length1])
    && CoefficientsFit(rowids, coefficients)
    && (coefficients.Some? ==> coefType == Float32)
  }

  /** One entry of the weighted gather-sum: Σ_j coef[i, j] * from[rowids[i, j], k]. */
  method RowWeightedSum(rowids: array2<int>, from: array2<real>, coefficients: Option<array2<real>>,
                        constant: real, decay: real, i: nat, k: nat) returns (s: real)
    requires i < rowids.Length0 && k < from.Length1
    requires CoefficientsFit(rowids, coefficients)
    requires IndicesBelow(rowids, from.Length0)
    ensures s == WeightedSum(Cells(from), Cells(rowids)[i], Weights(rowids, coefficients, constant, decay)[i], k)
  {
    ghost var src := Cells(from);
    ghost var ids := Cells(rowids)[i];
    ghost var w := Weights(rowids, coefficients, constant, decay)[i];
    assert |ids| == |w| == rowids.Length1;
    assert InRange(ids, |src|) && HasColumn(src, k);
    s := 0.0;
    for j := 0 to rowids.Length1
      invariant s == WeightedSum(src, ids[..j], w[..j], k)
    {
      var weight := WeightAt(coefficients, constant, decay, i, j);
      var x := from[rowids[i, j], k];
      WeightedSumStep(src, ids, w, k, j, weight, x);
      s := s + weight * x;
    }
    assert ids[..rowids.Length1] == ids;
    assert w[..rowids.Length1] == w;
  }

  /** Row i of the weighted gather-sum: to[i, k] = Σ_j coef[i, j] * from[rowids[i, j], k]; other rows are kept. */
  method GatherSumRow(rowids: array2<int>, from: array2<real>, to: array2<real>,
                      coefficients: Option<array2<real>>, constant: real, decay: real, i: nat)
    requires from != to && (coefficients.Some? ==> coefficients.value != to)
    requires Dims(to) == [rowids.Length0, from.Length1] && i < to.Length0
    requires CoefficientsFit(rowids, coefficients)
    requires IndicesBelow(rowids, from.Length0)
    modifies to
    ensures forall k :: 0 <= k < to.Length1 ==>
              to[i, k] == WeightedSum(Cells(from), Cells(rowids)[i], Weights(rowids, coefficients, constant, decay)[i], k)
    ensures forall row, k :: 0 <= row < to.Length0 && row != i && 0 <= k < to.Length1 ==> to[row, k] == old(to[row, k])
  {
    ghost var src := Cells(from);
    ghost var ids := Cells(rowids)[i];
    ghost var w := Weights(rowids, coefficients, constant, decay)[i];
    for k := 0 to to.Length1
      invariant forall k' :: 0 <= k' < k ==> to[i, k'] == WeightedSum(src, ids, w, k')
      invariant forall row, k' :: 0 <= row < to.Length0 && row != i && 0 <= k' < to.Length1 ==> to[row, k'] == old(to[row, k'])
    {
      var s := RowWeightedSum(rowids, from, coefficients, constant, decay, i, k);
      to[i, k] := s;
    }
  }

  /** Weighted gather-sum kernel: to[i, k] = Σ_j coef[i, j] * from[rowids[i, j], k]. */
  method GatherSumRows(rowids: array2<int>, from: array2<real>, to: array2<real>,
                       coefficients: Option<array2<real>>, constant: real, decay: real)
    requires from != to && (coefficients.Some? ==> coefficients.value != to)
    requires Dims(to) == [rowids.Length0, from.Length1]
    requires CoefficientsFit(rowids, coefficients)
    requires IndicesBelow(rowids, from.Length0)
    modifies to
    ensures forall i, k :: 0 <= i < to.Length0 && 0 <= k < to.Length1 ==>
              to[i, k] == WeightedSum(Cells(from), Cells(rowids)[i], Weights(rowids, coefficients, constant, decay)[i], k)
  {
    ghost var src := Cells(from);
    ghost var ids := Cells(rowids);
    ghost var w := Weights(rowids, coefficients, constant, decay);
    for i := 0 to to.Length0
      invariant forall i', k :: 0 <= i' < i && 0 <= k < to.Length1 ==> to[i', k] == WeightedSum(src, ids[i'], w[i'], k)
    {
      GatherSumRow(rowids, from, to, coefficients, constant, decay, i);
    }
  }

  /**
   * to[dest, k] += weight * from[i, k] for every column k; every other entry is
   * kept. The ghost x is row i of from as a value.
   */
  method AddScaledRow(from: array2<real>, i: nat, ghost x: seq<real>, weight: real, to: array2<real>, dest: nat)
    requires from != to
    requires i < from.Length0 && dest < to.Length0 && to.Length1 == from.Length1
    requires |x| == from.Length1 && forall c :: 0 <= c < |x| ==> x[c] == from[i, c]
    modifies to
    ensures forall row, c :: 0 <= row < to.Length0 && 0 <= c < to.Length1 ==>
              to[row, c] == old(to[row, c]) + (if row == dest then weight * x[c] else 0.0)
  {
    for k := 0 to to.Length1
      invariant forall row, c :: 0 <= row < to.Length0 && 0 <= c < to.Length1 ==>
                  to[row, c] == if row == dest && c < k then old(to[row, c]) + weight * x[c] else old(to[row, c])
    {
      to[dest, k] := to[dest, k] + weight * from[i, k];
    }
  }

  /**
   * The contributions of source row i: for j = 0, 1, ... in ascending order,
   * to[rowids[i, j], k] += coef[i, j] * from[i, k].
   */
  method ScatterAddRow(rowids: array2<int>, from: array2<real>, to: array2<real>,
                       coefficients: Option<array2<real>>, constant: real, decay: real, i: nat)
    requires from != to && (coefficients.Some? ==> coefficients.value != to)
    requires i < rowids.Length0 && i < from.Length0 && to.Length1 == from.Length1
    requires CoefficientsFit(rowids, coefficients)
    requires IndicesBelow(rowids, to.Length0)
    modifies to
    ensures forall row, c :: 0 <= row < to.Length0 && 0 <= c < to.Length1 ==>
              to[row, c] == old(to[row, c]) + RowInflow(Cells(rowids)[i], Weights(rowids, coefficients, constant, decay)[i], Cells(from)[i][c], row)
  {
    ghost var x := Cells(from)[i];
    ghost var ids := Cells(rowids)[i];
    ghost var w := Weights(rowids, coefficients, constant, decay)[i];
    for j := 0 to rowids.Length1
      invariant forall row, c :: 0 <= row < to.Length0 && 0 <= c < to.Length1 ==>
                  to[row, c] == old(to[row, c]) + RowInflow(ids[..j], w[..j], x[c], row)
    {
      var dest := rowids[i, j];
      var weight := WeightAt(coefficients, constant, decay, i, j);
      AddScaledRow(from, i, x, weight, to, dest);
      forall row, c | 0 <= row < to.Length0 && 0 <= c < to.Length1
        ensures RowInflow(ids[..j + 1], w[..j + 1], x[c], row)
                == RowInflow(ids[..j], w[..j], x[c], row) + (if dest == row then weight * x[c] else 0.0)
      {
        RowInflowStep(ids, w, x[c], row, j, weight);
      }
    }
    assert ids[..rowids.Length1] == ids;
    assert w[..rowids.Length1] == w;
  }

  /**
   * Weighted scatter-accumulate kernel: for every i and j in ascending order,
   * to[rowids[i, j], k] += coef[i, j] * from[i, k]. The destination is not
   * cleared first, so each entry ends as its old value plus its Inflow.
   */
  method ScatterAddRows(rowids: array2<int>, from: array2<real>, to: array2<real>,
                        coefficients: Option<array2<real>>, constant: real, decay: real)
    requires from != to && (coefficients.Some? ==> coefficients.value != to)
    requires rowids.Length0 <= from.Length0 && to.Length1 == from.Length1
    requires CoefficientsFit(rowids, coefficients)
    requires IndicesBelow(rowids, to.Length0)
    modifies to
    ensures forall row, c :: 0 <= row < to.Length0 && 0 <= c < to.Length1 ==>
              to[row, c] == old(to[row, c]) + Inflow(Cells(rowids), Weights(rowids, coefficients, constant, decay), Cells(from), row, c)
  {
    ghost var src := Cells(from);
    ghost var ids := Cells(rowids);
    ghost var w := Weights(rowids, coefficients, constant, decay);
    for i := 0 to rowids.Length0
      invariant forall row, c :: 0 <= row < to.Length0 && 0 <= c < to.Length1 ==>
                  to[row, c] == old(to[row, c]) + Inflow(ids[..i], w[..i], src, row, c)
    {
      ScatterAddRow(rowids, from, to, coefficients, constant, decay, i);
      forall row, c | 0 <= row < to.Length0 && 0 <= c < to.Length1
        ensures Inflow(ids[..i + 1], w[..i + 1], src, row, c)
                == Inflow(ids[..i], w[..i], src, row, c) + RowInflow(ids[i], w[i], src[i][c], row)
      {
        InflowStep(ids, w, src, row, c, i);
      }
    }
    assert ids[..rowids.Length0] == ids;
    assert w[..rowids.Length0] == w;
  }

  /**
   * copy_sum_rows(rowids, from_mat, to_mat, map_from, coefficients, constant, var),
   * with `var` named decay here. With mapFrom it sets
   * to[i, k] = Σ_j coef[i, j] * from[rowids[i, j], k]; otherwise it adds
   * coef[i, j] * from[i, k] into to[rowids[i, j], k]. The gates run in the
   * source's order: rowids dtype, to_mat shape (gather mode only), coefficients
   * shape, coefficients dtype.
   */
  method CopySumRows(rowids: array2<int>, rowidsType: DType, from: array2<real>, to: array2<real>, mapFrom: bool := true,
                     coefficients: Option<array2<real>> := None, coefType: DType := Float32,
                     constant: real := 1.0, decay: real := 1.0)
    returns (r: Result<array2<real>>)
    requires CopySumRowsAccepts(rowids, rowidsType, from, to, mapFrom, coefficients, coefType) ==>
               && from != to
               && (coefficients.Some? ==> coefficients.value != to)
               && if mapFrom then IndicesBelow(rowids, from.Length0)
                  else rowids.Length0 <= from.Length0 && to.Length1 == from.Length1 && IndicesBelow(rowids, to.Length0)
    modifies to
    ensures rowidsType != Int32 ==> r == Err(DTypeMismatch(RowIds))
    ensures rowidsType == Int32 && mapFrom && Dims(to) != [rowids.Length0, from.Length1] ==>
              r == Err(ShapeMismatch(ToMat, Dims(to), [rowids.Length0, from.Length1]))
    ensures rowidsType == Int32 && (mapFrom ==> Dims(to) == [rowids.Length0, from.Length1]) &&
            !CoefficientsFit(rowids, coefficients) ==>
              r == Err(ShapeMismatch(Coefficients, Dims(coefficients.value), Dims(rowids)))
    ensures rowidsType == Int32 && (mapFrom ==> Dims(to) == [rowids.Length0, from.Length1]) &&
            CoefficientsFit(rowids, coefficients) && coefficients.Some? && coefType != Float32 ==>
              r == Err(DTypeMismatch(Coefficients))
    ensures r.Ok? <==> CopySumRowsAccepts(rowids, rowidsType, from, to, mapFrom, coefficients, coefType)
    ensures r.Err? ==> unchanged(to)
    ensures r.Ok? ==> r.value == to
    ensures r.Ok? && mapFrom ==>
              forall i, k :: 0 <= i < to.Length0 && 0 <= k < to.Length1 ==>
                to[i, k] == WeightedSum(Cells(from), Cells(rowids)[i], Weights(rowids, coefficients, constant, decay)[i], k)
    ensures r.Ok? && !mapFrom ==>
              forall row, c :: 0 <= row < to.Length0 && 0 <= c < to.Length1 ==>
                to[row, c] == old(to[row, c]) + Inflow(Cells(rowids), Weights(rowids, coefficients, constant, decay), Cells(from), row, c)
  {
    if rowidsType != Int32 {
      return Err(DTypeMismatch(RowIds));
    }
    var toShape := [rowids.Length0, from.Length1];
    if mapFrom && Dims(to) != toShape {
      return Err(ShapeMismatch(ToMat, Dims(to), toShape));
    }
    if coefficients.Some? {
      if Dims(rowids) != Dims(coefficients.value) {
        return Err(ShapeMismatch(Coefficients, Dims(coefficients.value), Dims(rowids)));
      }
      if coefType != Float32 {
        return Err(DTypeMismatch(Coefficients));
      }
    }
    if mapFrom {
      GatherSumRows(rowids, from, to, coefficients, constant, decay);
    } else {
      ScatterAddRows(rowids, from, to, coefficients, constant, decay);
    }
    return Ok(to);
  }

  // ----------------------------------------------------------------------
  // one_hot_encode / one_hot_decode
  // ----------------------------------------------------------------------

  /** Encoder kernel: every entry of `out` is written, 1 at (i, labels[i]) and 0 elsewhere. */
  method WriteOneHot(labels: array<int>, out: array2<real>)
    requires out.Length0 == labels.Length && InRange(labels[..], out.Length1)
    modifies out
    ensures Cells(out) == OneHot(labels[..], out.Length1)
  {
    for i := 0 to out.Length0
      invariant forall i', c :: 0 <= i' < i && 0 <= c < out.Length1 ==>
                  out[i', c] == if c == labels[i'] then 1.0 else 0.0
    {
      for c := 0 to out.Length1
        invariant forall i', c' :: 0 <= i' < i && 0 <= c' < out.Length1 ==>
                    out[i', c'] == if c' == labels[i'] then 1.0 else 0.0
        invariant forall c' :: 0 <= c' < c ==> out[i, c'] == if c' == labels[i] then 1.0 else 0.0
      {
        out[i, c] := if c == labels[i] then 1.0 else 0.0;
      }
    }
    CellsAre(out, OneHot(labels[..], out.Length1));
  }

  /** The gates of one_hot_encode pass: labels are int32 and a given `out` has shape (labels.size, nClasses). */
  predicate EncodeAccepts(labels: array<int>, labelsType: DType, nClasses: nat, out: Option<array2<real>> := None) {
    labelsType == Int32 && (out.Some? ==> Dims(out.value) == [labels.Length, nClasses])
  }

  /**
   * one_hot_encode(labels, n_classes, out): the one-hot matrix of labels,
   * written into `out` when given and into a new matrix otherwise. The dtype of
   * labels is checked first, then the shape of `out`.
   */
  method OneHotEncode(labels: array<int>, labelsType: DType, nClasses: nat, out: Option<array2<real>> := None)
    returns (r: Result<array2<real>>)
    requires EncodeAccepts(labels, labelsType, nClasses, out) ==> InRange(labels[..], nClasses)
    modifies if out.Some? then {out.value} else {}
    ensures labelsType != Int32 ==> r == Err(DTypeMismatch(Labels))
    ensures labelsType == Int32 && out.Some? && Dims(out.value) != [labels.Length, nClasses] ==>
              r == Err(ShapeMismatch(Out, Dims(out.value), [labels.Length, nClasses]))
    ensures r.Ok? <==> EncodeAccepts(labels, labelsType, nClasses, out)
    ensures r.Err? && out.Some? ==> unchanged(out.value)
    ensures r.Ok? && out.Some? ==> r.value == out.value
    ensures r.Ok? && out.None? ==> fresh(r.value)
    ensures r.Ok? ==> Dims(r.value) == [labels.Length, nClasses]
    ensures r.Ok? ==> Cells(r.value) == OneHot(labels[..], nClasses)
  {
    var outShape := [labels.Length, nClasses];
    if labelsType != Int32 {
      return Err(DTypeMismatch(Labels));
    }
    var dest: array2<real>;
    if out.None? {
      dest := new real[labels.Length, nClasses];
    } else {
      dest := out.value;
      if Dims(dest) != outShape {
        return Err(ShapeMismatch(Out, Dims(dest), outShape));
      }
    }
    WriteOneHot(labels, dest);
    return Ok(dest);
  }

  /** The column of the largest entry of row i of m, the first such column on ties. */
  method RowArgmax(m: array2<real>, i: nat) returns (k: nat)
    requires i < m.Length0 && 0 < m.Length1
    ensures k == Argmax(Cells(m)[i])
    ensures k < m.Length1
    ensures forall c :: 0 <= c < m.Length1 ==> m[i, c] <= m[i, k]
    ensures forall c :: 0 <= c < k ==> m[i, c] < m[i, k]
  {
    ghost var row := Cells(m)[i];
    k := 0;
    for c := 1 to m.Length1
      invariant k == Argmax(row[..c])
    {
      assert row[..c + 1][..c] == row[..c];
      if m[i, c] > m[i, k] {
        k := c;
      }
    }
    assert row[..m.Length1] == row;
  }

  /** Decoder kernel: out[i] is the argmax of row i of m. */
  method ArgmaxRows(m: array2<real>, out: array<int>)
    requires out.Length == m.Length0 && (0 < m.Length0 ==> 0 < m.Length1)
    modifies out
    ensures forall i :: 0 <= i < m.Length0 ==> out[i] == Argmax(Cells(m)[i])
  {
    for i := 0 to m.Length0
      invariant forall i' :: 0 <= i' < i ==> out[i'] == Argmax(Cells(m)[i'])
    {
      var k := RowArgmax(m, i);
      out[i] := k;
    }
  }

  /** The gates of one_hot_decode pass: a given `out` is int32 and has shape (rows of oneHot,). */
  predicate DecodeAccepts(oneHot: array2<real>, out: Option<array<int>>, outType: DType) {
    out.Some? ==> outType == Int32 && out.value.Length == oneHot.Length0
  }

  /**
   * one_hot_decode(one_hot, out): the row-wise argmax of oneHot, written into
   * `out` when given and into a new vector otherwise. The dtype of a given
   * `out` (outType) is checked first, then its shape.
   */
  method OneHotDecode(oneHot: array2<real>, out: Option<array<int>> := None, outType: DType := Int32)
    returns (r: Result<array<int>>)
    requires DecodeAccepts(oneHot, out, outType) ==> (0 < oneHot.Length0 ==> 0 < oneHot.Length1)
    modifies if out.Some? then {out.value} else {}
    ensures out.Some? && outType != Int32 ==> r == Err(DTypeMismatch(Out))
    ensures out.Some? && outType == Int32 && out.value.Length != oneHot.Length0 ==>
              r == Err(ShapeMismatch(Out, [out.value.Length], [oneHot.Length0]))
    ensures r.Ok? <==> DecodeAccepts(oneHot, out, outType)
    ensures r.Err? && out.Some? ==> unchanged(out.value)
    ensures r.Ok? && out.Some? ==> r.value == out.value
    ensures r.Ok? && out.None? ==> fresh(r.value)
    ensures r.Ok? ==> r.value.Length == oneHot.Length0
    ensures r.Ok? ==> forall i :: 0 <= i < oneHot.Length0 ==> r.value[i] == Argmax(Cells(oneHot)[i])
  {
    var outShape := [oneHot.Length0];
    var dest: array<int>;
    if out.None? {
      dest := new int[oneHot.Length0];
    } else {
      dest := out.value;
      if outType != Int32 {
        return Err(DTypeMismatch(Out));
      }
      if [dest.Length] != outShape {
        return Err(ShapeMismatch(Out, [dest.Length], outShape));
      }
    }
    ArgmaxRows(oneHot, dest);
    return Ok(dest);
  }
}
