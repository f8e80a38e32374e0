/**
 * `buildConfusionMatrix`: an N x N contingency table of classification
 * results, N being the number of labels. Row t stands for target label
 * `labels[t]`, column p for predicted label `labels[p]`, and the cell holds
 * how many samples had that target and that prediction.
 */
module Confusion {

  /**
   * `pred[targets == tl]`: the predictions at the positions whose target is
   * `tl`, in their original order.
   */
  function MaskSelect<T(==)>(predictions: seq<T>, targets: seq<T>, tl: T): (sel: seq<T>)
    requires |targets| == |predictions|
    ensures |sel| == CountEqual(targets, tl)
    ensures forall x :: x in sel ==> x in predictions
    decreases |targets|
  {
    if targets == [] then []
    else
      var n := |targets| - 1;
      MaskSelect(predictions[..n], targets[..n], tl) + (if targets[n] == tl then [predictions[n]] else [])
  }

  /** `N.sum(xs == v)`: how many elements of `xs` equal `v`. */
  function CountEqual<T(==)>(xs: seq<T>, v: T): (c: nat)
    ensures c <= |xs|
    ensures c > 0 <==> v in xs
  {
    if xs == [] then 0
    else CountEqual(xs[..|xs| - 1], v) + (if xs[|xs| - 1] == v then 1 else 0)
  }

  /** How many samples have target `a` and prediction `b`, as the source computes it. */
  function Count<T(==)>(targets: seq<T>, predictions: seq<T>, a: T, b: T): (c: nat)
    requires |targets| == |predictions|
    ensures c <= CountEqual(targets, a)
    ensures a !in targets || b !in predictions ==> c == 0
  {
    CountEqual(MaskSelect(predictions, targets, a), b)
  }

  /** Cell (t, p) of the matrix: samples whose target is `labels[t]` and whose prediction is `labels[p]`. */
  function Cell<T(==)>(labels: seq<T>, targets: seq<T>, predictions: seq<T>, t: nat, p: nat): (c: nat)
    requires |targets| == |predictions|
    requires t < |labels| && p < |labels|
    ensures c <= |targets|
  {
    Count(targets, predictions, labels[t], labels[p])
  }

  /** The zero-initialised table filled row by row, column by column. */
  method BuildConfusionMatrix<T(==)>(labels: seq<T>, targets: seq<T>, predictions: seq<T>) returns (mat: array2<nat>)
    requires |targets| == |predictions|
    ensures fresh(mat)
    ensures mat.Length0 == |labels| && mat.Length1 == |labels|
    ensures forall t, p :: 0 <= t < |labels| && 0 <= p < |labels| ==>
      mat[t, p] == Cell(labels, targets, predictions, t, p)
  {
    mat := new nat[|labels|, |labels|]((_, _) => 0);
    for t := 0 to |labels|
      invariant forall i, j :: 0 <= i < t && 0 <= j < |labels| ==>
        mat[i, j] == Cell(labels, targets, predictions, i, j)
    {
      for p := 0 to |labels|
        invariant forall i, j :: 0 <= i < t && 0 <= j < |labels| ==>
          mat[i, j] == Cell(labels, targets, predictions, i, j)
        invariant forall j :: 0 <= j < p ==> mat[t, j] == Cell(labels, targets, predictions, t, j)
      {
        mat[t, p] := Cell(labels, targets, predictions, t, p);
      }
    }
  }

  /** The positions k at which the target is `a` and the prediction is `b`. */
  function Positions<T(==)>(targets: seq<T>, predictions: seq<T>, a: T, b: T): set<nat>
    requires |targets| == |predictions|
  {
    set k: nat | k < |targets| && targets[k] == a && predictions[k] == b
  }

  /** Appending one sample adds one to exactly the cell of its (target, prediction) pair. */
  lemma CountAppend<T>(targets: seq<T>, predictions: seq<T>, x: T, y: T, a: T, b: T)
    requires |targets| == |predictions|
    ensures Count(targets + [x], predictions + [y], a, b)
            == Count(targets, predictions, a, b) + (if x == a && y == b then 1 else 0)
  {
    var ts, ps := targets + [x], predictions + [y];
    assert ts[..|targets|] == targets && ps[..|targets|] == predictions;
    var sel := MaskSelect(predictions, targets, a);
    if x == a {
      assert MaskSelect(ps, ts, a) == sel + [y];
      assert (sel + [y])[..|sel|] == sel;
    } else {
      assert MaskSelect(ps, ts, a) == sel;
    }
  }

  /** Each cell counts exactly the samples with that target and that prediction. */
  lemma {:induction false} CountIsPositions<T>(targets: seq<T>, predictions: seq<T>, a: T, b: T)
    requires |targets| == |predictions|
    ensures Count(targets, predictions, a, b) == |Positions(targets, predictions, a, b)|
    decreases |targets|
  {
    if targets == [] {
      assert Positions(targets, predictions, a, b) == {};
    } else {
      var n := |targets| - 1;
      var ts, ps := targets[..n], predictions[..n];
      assert targets == ts + [targets[n]] && predictions == ps + [predictions[n]];
      CountAppend(ts, ps, targets[n], predictions[n], a, b);
      CountIsPositions(ts, ps, a, b);
      var before := Positions(ts, ps, a, b);
      if targets[n] == a && predictions[n] == b {
        assert Positions(targets, predictions, a, b) == before + {n};
        assert n !in before;
      } else {
        assert Positions(targets, predictions, a, b) == before;
      }
    }
  }

  /** Sum of one row: the counts of target `a` against every label of `columns`. */
  function RowSum<T(==)>(targets: seq<T>, predictions: seq<T>, a: T, columns: seq<T>): nat
    requires |targets| == |predictions|
  {
    if columns == [] then 0
    else RowSum(targets, predictions, a, columns[..|columns| - 1])
         + Count(targets, predictions, a, columns[|columns| - 1])
  }

  /** Sum of the whole table whose rows are `rows` and whose columns are `columns`. */
  function TableSum<T(==)>(targets: seq<T>, predictions: seq<T>, rows: seq<T>, columns: seq<T>): nat
    requires |targets| == |predictions|
  {
    if rows == [] then 0
    else TableSum(targets, predictions, rows[..|rows| - 1], columns)
         + RowSum(targets, predictions, rows[|rows| - 1], columns)
  }

  lemma {:induction false} RowSumAppend<T>(targets: seq<T>, predictions: seq<T>, x: T, y: T, a: T, columns: seq<T>)
    requires |targets| == |predictions|
    ensures RowSum(targets + [x], predictions + [y], a, columns)
            == RowSum(targets, predictions, a, columns) + (if x == a then CountEqual(columns, y) else 0)
  {
    if columns != [] {
      var n := |columns| - 1;
      RowSumAppend(targets, predictions, x, y, a, columns[..n]);
      CountAppend(targets, predictions, x, y, a, columns[n]);
    }
  }

  /** The contribution of one new sample (x, y) to a table: `CountEqual(columns, y)` on each row labelled x. */
  function RowHits<T(==)>(rows: seq<T>, x: T, c: nat): nat
  {
    if rows == [] then 0
    else RowHits(rows[..|rows| - 1], x, c) + (if rows[|rows| - 1] == x then c else 0)
  }

  lemma {:induction false} RowHitsIsProduct<T>(rows: seq<T>, x: T, c: nat)
    ensures RowHits(rows, x, c) == CountEqual(rows, x) * c
  {
    if rows != [] {
      var n := |rows| - 1;
      RowHitsIsProduct(rows[..n], x, c);
      var before, hit := CountEqual(rows[..n], x), (if rows[n] == x then 1 else 0);
      assert (before + hit) * c == before * c + hit * c;
    }
  }

  lemma {:induction false} TableSumAppend<T>(targets: seq<T>, predictions: seq<T>, x: T, y: T, rows: seq<T>, columns: seq<T>)
    requires |targets| == |predictions|
    ensures TableSum(targets + [x], predictions + [y], rows, columns)
            == TableSum(targets, predictions, rows, columns) + RowHits(rows, x, CountEqual(columns, y))
  {
    if rows != [] {
      var n := |rows| - 1;
      TableSumAppend(targets, predictions, x, y, rows[..n], columns);
      RowSumAppend(targets, predictions, x, y, rows[n], columns);
    }
  }

  /** No label is repeated. */
  predicate Distinct<T(==)>(labels: seq<T>)
  {
    forall i, j :: 0 <= i < j < |labels| ==> labels[i] != labels[j]
  }

  /** A label of a list of distinct labels occurs in it exactly once. */
  lemma {:induction false} OccursOnce<T>(labels: seq<T>, x: T)
    requires Distinct(labels) && x in labels
    ensures CountEqual(labels, x) == 1
  {
    var n := |labels| - 1;
    var init := labels[..n];
    assert labels == init + [labels[n]];
    if labels[n] == x {
      assert x !in init by {
        forall i | 0 <= i < n ensures init[i] != x {
          assert labels[i] != labels[n];
        }
      }
    } else {
      assert x in init;
      OccursOnce(init, x);
    }
  }

  /**
   * With distinct labels and every target and prediction among them, the
   * cells of the table add up to the number of samples.
   */
  lemma {:induction false} TableSumIsSampleCount<T>(labels: seq<T>, targets: seq<T>, predictions: seq<T>)
    requires |targets| == |predictions|
    requires Distinct(labels)
    requires forall k :: 0 <= k < |targets| ==> targets[k] in labels && predictions[k] in labels
    ensures TableSum(targets, predictions, labels, labels) == |targets|
    decreases |targets|
  {
    if targets == [] {
      TableSumEmpty(targets, predictions, labels, labels);
    } else {
      var n := |targets| - 1;
      var ts, ps := targets[..n], predictions[..n];
      assert targets == ts + [targets[n]] && predictions == ps + [predictions[n]];
      TableSumIsSampleCount(labels, ts, ps);
      TableSumAppend(ts, ps, targets[n], predictions[n], labels, labels);
      RowHitsIsProduct(labels, targets[n], CountEqual(labels, predictions[n]));
      OccursOnce(labels, targets[n]);
      OccursOnce(labels, predictions[n]);
    }
  }

  lemma {:induction false} TableSumEmpty<T>(targets: seq<T>, predictions: seq<T>, rows: seq<T>, columns: seq<T>)
    requires targets == [] && predictions == []
    ensures TableSum(targets, predictions, rows, columns) == 0
  {
    if rows != [] {
      TableSumEmpty(targets, predictions, rows[..|rows| - 1], columns);
      RowSumEmpty(targets, predictions, rows[|rows| - 1], columns);
    }
  }

  lemma {:induction false} RowSumEmpty<T>(targets: seq<T>, predictions: seq<T>, a: T, columns: seq<T>)
    requires targets == [] && predictions == []
    ensures RowSum(targets, predictions, a, columns) == 0
  {
    if columns != [] {
      RowSumEmpty(targets, predictions, a, columns[..|columns| - 1]);
    }
  }

  /** When every prediction is right, a sample is counted only where target and prediction agree. */
  lemma {:induction false} PerfectPredictionOffDiagonal<T>(targets: seq<T>, a: T, b: T)
    requires a != b
    ensures Count(targets, targets, a, b) == 0
    decreases |targets|
  {
    if targets != [] {
      var n := |targets| - 1;
      var ts := targets[..n];
      assert targets == ts + [targets[n]];
      PerfectPredictionOffDiagonal(ts, a, b);
      CountAppend(ts, ts, targets[n], targets[n], a, b);
    }
  }

  /** With distinct labels and perfect predictions, every off-diagonal cell is zero. */
  lemma ConfusionOffDiagonalZero<T>(labels: seq<T>, targets: seq<T>, t: nat, p: nat)
    requires Distinct(labels)
    requires t < |labels| && p < |labels| && t != p
    ensures Cell(labels, targets, targets, t, p) == 0
  {
    if t < p {
      assert labels[t] != labels[p];
    } else {
      assert labels[p] != labels[t];
    }
    PerfectPredictionOffDiagonal(targets, labels[t], labels[p]);
  }

  /** With perfect predictions a diagonal cell counts the samples of that label. */
  lemma {:induction false} PerfectPredictionDiagonal<T>(targets: seq<T>, a: T)
    ensures Count(targets, targets, a, a) == CountEqual(targets, a)
    decreases |targets|
  {
    if targets != [] {
      var n := |targets| - 1;
      var ts := targets[..n];
      assert targets == ts + [targets[n]];
      PerfectPredictionDiagonal(ts, a);
      CountAppend(ts, ts, targets[n], targets[n], a, a);
    }
  }
}
