/**
 * Clients of the Special entry points: worked examples of copy_rows and
 * copy_sum_rows, the column totals of scatter-accumulate, and the
 * encode/decode round trip, proved from the entry points' contracts alone.
 */
module SpecialExamples {
  import opened RowSpec
  import opened Special

  /** copy_rows([2, 0, 1], [[a], [b], [c]], to_mat, map_from=True) leaves to_mat = [[c], [a], [b]]. */
  method GatherExample(a: real, b: real, c: real) returns (to: array2<real>)
    ensures to.Length0 == 3 && to.Length1 == 1
    ensures to[0, 0] == c && to[1, 0] == a && to[2, 0] == b
  {
    var rowids := new int[][2, 0, 1];
    var from := new real[3, 1];
    from[0, 0], from[1, 0], from[2, 0] := a, b, c;
    to := new real[3, 1];
    var r := CopyRows(rowids, Int32, from, to);
  }

  /**
   * copy_rows([0, 0], [[x], [y]], to_mat, map_from=False): both source rows
   * name row 0; the later one, y, is what row 0 ends with.
   */
  method ScatterCollisionExample(x: real, y: real, z: real) returns (to: array2<real>)
    ensures to.Length0 == 1 && to.Length1 == 1
    ensures to[0, 0] == y
  {
    var rowids := new int[][0, 0];
    var from := new real[2, 1];
    from[0, 0], from[1, 0] := x, y;
    to := new real[1, 1];
    to[0, 0] := z;
    var r := CopyRows(rowids, Int32, from, to, false);
    assert rowids[..] == [0, 0];
  }

  /**
   * copy_sum_rows([[0, 1]], [[10], [20], [30]], to_mat) with no coefficients
   * and the default constant and var: to_mat = [[10 + 20]].
   */
  method GatherSumExample() returns (to: array2<real>)
    ensures to.Length0 == 1 && to.Length1 == 1
    ensures to[0, 0] == 30.0
  {
    var rowids := new int[1, 2];
    rowids[0, 0], rowids[0, 1] := 0, 1;
    var from := new real[3, 1];
    from[0, 0], from[1, 0], from[2, 0] := 10.0, 20.0, 30.0;
    to := new real[1, 1];
    var r := CopySumRows(rowids, Int32, from, to);
    CellsAre(rowids, [[0, 1]]);
    CellsAre(from, [[10.0], [20.0], [30.0]]);
    ExampleSum([[10.0], [20.0], [30.0]]);
  }

  /** The value-level side of GatherSumExample: with unit weights, 10 + 20. */
  lemma ExampleSum(src: seq<seq<real>>)
    requires IsMatrix(src, 3, 1) && src[0][0] == 10.0 && src[1][0] == 20.0
    ensures WeightedSum(src, [0, 1], DecayCoefficients(1, 2, 1.0, 1.0)[0], 0) == 30.0
  {
  }

  /**
   * copy_sum_rows with map_from=False, all indices naming rows of to_mat:
   * every column total of to_mat grows by exactly what the source rows send
   * out, Σ_i Σ_j coef[i, j] * from[i, c].
   */
  method AccumulateColumnTotals(rowids: array2<int>, from: array2<real>, to: array2<real>,
                                coefficients: Option<array2<real>>, constant: real, decay: real)
    returns (r: Result<array2<real>>)
    requires from != to && (coefficients.Some? ==> coefficients.value != to)
    requires rowids.Length0 <= from.Length0 && to.Length1 == from.Length1 && IndicesBelow(rowids, to.Length0)
    modifies to
    ensures r.Ok? <==> CoefficientsFit(rowids, coefficients)
    ensures r.Ok? ==>
              forall c :: 0 <= c < to.Length1 ==>
                ColumnTotal(Cells(to), c, to.Length0)
                == ColumnTotal(old(Cells(to)), c, to.Length0) + TotalOutflow(Weights(rowids, coefficients, constant, decay), Cells(from), c)
  {
    ghost var before := Cells(to);
    r := CopySumRows(rowids, Int32, from, to, false, coefficients, Float32, constant, decay);
    if r.Ok? {
      ghost var ids := Cells(rowids);
      ghost var w := Weights(rowids, coefficients, constant, decay);
      ghost var src := Cells(from);
      ghost var after := Cells(to);
      assert AllInRange(ids, to.Length0);
      forall c | 0 <= c < to.Length1
        ensures ColumnTotal(after, c, to.Length0) == ColumnTotal(before, c, to.Length0) + TotalOutflow(w, src, c)
      {
        AccumulateConservesColumn(before, after, ids, w, src, c);
      }
    }
  }

  /** A gather into a matrix of the wrong shape is refused and leaves that matrix as it was. */
  method RejectedGatherExample(v: real) returns (to: array2<real>)
    ensures to.Length0 == 2 && to.Length1 == 1 && to[0, 0] == v && to[1, 0] == v
  {
    var rowids := new int[][0, 0, 0];
    var from := new real[1, 1];
    to := new real[2, 1];
    to[0, 0], to[1, 0] := v, v;
    var r := CopyRows(rowids, Int32, from, to, true);
    assert r == Err(ShapeMismatch(ToMat, [2, 1], [3, 1]));
  }

  /**
   * A call that passes one matrix as both from_mat and to_mat with float row
   * ids is refused by a gate like any other, and the matrix is left as it was.
   */
  method AliasedRejectedExample(m: array2<real>) returns (r: Result<array2<real>>)
    modifies m
    ensures r.Err? && unchanged(m)
  {
    var rowids := new int[][0];
    r := CopyRows(rowids, Float32, m, m, true);
  }

  /** Decoding the one-hot encoding of labels in [0, nClasses) gives the labels back. */
  method EncodeDecodeRoundTrip(labels: array<int>, nClasses: nat) returns (decoded: array<int>)
    requires InRange(labels[..], nClasses)
    ensures decoded[..] == labels[..]
  {
    var encoded := OneHotEncode(labels, Int32, nClasses);
    var m := encoded.value;
    assert 0 < labels.Length ==> labels[..][0] < nClasses;
    var r := OneHotDecode(m);
    decoded := r.value;
    forall i | 0 <= i < labels.Length
      ensures decoded[i] == labels[i]
    {
      DecodeOneHot(labels[..], nClasses, i);
    }
  }
}
