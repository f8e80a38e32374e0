/**
 * `transformWithBoxcar`: reduce windows of consecutive rows of a dataset.
 * Each start point names a window of `boxlength` rows beginning `offset`
 * rows after it; every window is checked to lie inside the data before any
 * is reduced. The reducer (the source's default is a floating-point mean
 * over an array axis) is an arbitrary function `fx` from a window's rows to
 * a value.
 */
module Boxcar {
  import opened Wrappers

  /** The two `ValueError`s the transformation raises. */
  datatype BoxcarError =
    | BoxlengthTooSmall
    | IllegalBox(start: int, offset: int, length: int)

  /** The source's test for one start point, as it writes it. */
  predicate LegalBox(dataLen: nat, sp: int, offset: int, boxlength: int): (b: bool)
    ensures b <==> 0 <= sp + offset && sp + offset + boxlength <= dataLen
  {
    !(sp + offset + boxlength - 1 > dataLen - 1) && !(sp + offset < 0)
  }

  /** Every index of `box` points into data of length `dataLen`. */
  predicate IndicesIn(box: seq<int>, dataLen: nat)
  {
    forall j :: 0 <= j < |box| ==> 0 <= box[j] < dataLen
  }

  /** Python's `range(lo, hi)`: the integers lo, lo+1, ..., hi-1 (empty when hi <= lo). */
  function Range(lo: int, hi: int): (r: seq<int>)
    ensures |r| == if lo <= hi then hi - lo else 0
    ensures forall j :: 0 <= j < |r| ==> r[j] == lo + j
  {
    if lo < hi then seq(hi - lo, j => lo + j) else []
  }

  /**
   * The validation loop: the position of the first start point whose box is
   * illegal, or None when every box fits.
   */
  function FirstIllegalBox(dataLen: nat, startpoints: seq<int>, offset: int, boxlength: int): (r: Option<nat>)
    ensures r.None? <==> forall k :: 0 <= k < |startpoints| ==> LegalBox(dataLen, startpoints[k], offset, boxlength)
    ensures r.Some? ==> r.value < |startpoints| && !LegalBox(dataLen, startpoints[r.value], offset, boxlength)
    ensures r.Some? ==> forall k :: 0 <= k < r.value ==> LegalBox(dataLen, startpoints[k], offset, boxlength)
  {
    if startpoints == [] then None
    else if !LegalBox(dataLen, startpoints[0], offset, boxlength) then Some(0)
    else match FirstIllegalBox(dataLen, startpoints[1..], offset, boxlength)
      case None => None
      case Some(k) => Some(k + 1)
  }

  /** The list comprehension building one index window per start point. */
  function Selector(startpoints: seq<int>, offset: int, boxlength: int): (sel: seq<seq<int>>)
    ensures |sel| == |startpoints|
    ensures forall k :: 0 <= k < |sel| ==> |sel[k]| == if boxlength >= 0 then boxlength else 0
    ensures forall k, j :: 0 <= k < |sel| && 0 <= j < |sel[k]| ==> sel[k][j] == startpoints[k] + offset + j
  {
    seq(|startpoints|, k requires 0 <= k < |startpoints| =>
      Range(startpoints[k] + offset, startpoints[k] + offset + boxlength))
  }

  /** `data[N.array(box)]`: the rows at the given indices, in that order. */
  function Rows<D>(data: seq<D>, box: seq<int>): (rows: seq<D>)
    requires IndicesIn(box, |data|)
    ensures |rows| == |box|
    ensures forall j :: 0 <= j < |box| ==> rows[j] == data[box[j]]
  {
    seq(|box|, j requires 0 <= j < |box| => data[box[j]])
  }

  /** The whole transformation: validation first, then one reduced window per start point. */
  function TransformWithBoxcar<D, R>(data: seq<D>, startpoints: seq<int>, boxlength: int, offset: int,
                                     fx: seq<D> -> R): (r: Result<seq<R>, BoxcarError>)
    ensures boxlength < 1 ==> r == Failure(BoxlengthTooSmall)
    ensures r.Failure? ==> (r.error.BoxlengthTooSmall? <==> boxlength < 1)
    ensures r.Success? <==>
      boxlength >= 1 && forall k :: 0 <= k < |startpoints| ==> LegalBox(|data|, startpoints[k], offset, boxlength)
    ensures r.Failure? && r.error.IllegalBox? ==>
      exists k :: 0 <= k < |startpoints| && r.error == IllegalBox(startpoints[k], offset, boxlength)
                  && !LegalBox(|data|, startpoints[k], offset, boxlength)
                  && forall j :: 0 <= j < k ==> LegalBox(|data|, startpoints[j], offset, boxlength)
    ensures r.Success? ==> |r.value| == |startpoints|
    ensures r.Success? ==> forall k :: 0 <= k < |startpoints| ==>
      r.value[k] == fx(data[startpoints[k] + offset .. startpoints[k] + offset + boxlength])
  {
    if boxlength < 1 then Failure(BoxlengthTooSmall)
    else match FirstIllegalBox(|data|, startpoints, offset, boxlength)
      case Some(k) => Failure(IllegalBox(startpoints[k], offset, boxlength))
      case None =>
        var selector := Selector(startpoints, offset, boxlength);
        SelectorInData(|data|, startpoints, offset, boxlength);
        var selected := seq(|selector|, k requires 0 <= k < |selector| => fx(Rows(data, selector[k])));
        assert forall k :: 0 <= k < |startpoints| ==>
          selected[k] == fx(data[startpoints[k] + offset .. startpoints[k] + offset + boxlength]) by {
          forall k | 0 <= k < |startpoints|
            ensures selected[k] == fx(data[startpoints[k] + offset .. startpoints[k] + offset + boxlength])
          {
            var lo := startpoints[k] + offset;
            assert selector[k] == Range(lo, lo + boxlength);
            WindowIsSlice(data, lo, boxlength);
          }
        }
        Success(selected)
  }

  /** A start point passes the check exactly when every index of its window lies inside the data. */
  lemma LegalBoxMeansInData(dataLen: nat, sp: int, offset: int, boxlength: int)
    requires boxlength >= 1
    ensures LegalBox(dataLen, sp, offset, boxlength) <==>
      IndicesIn(Range(sp + offset, sp + offset + boxlength), dataLen)
  {
    var box := Range(sp + offset, sp + offset + boxlength);
    if !LegalBox(dataLen, sp, offset, boxlength) {
      if sp + offset < 0 {
        assert box[0] == sp + offset;
      } else {
        assert box[boxlength - 1] == sp + offset + boxlength - 1;
      }
    }
  }

  /**
   * On valid start points the window of start point k holds exactly the
   * `boxlength` consecutive indices from `startpoints[k] + offset`, all inside the data.
   */
  lemma SelectorInData(dataLen: nat, startpoints: seq<int>, offset: int, boxlength: int)
    requires boxlength >= 1
    requires forall k :: 0 <= k < |startpoints| ==> LegalBox(dataLen, startpoints[k], offset, boxlength)
    ensures forall k :: 0 <= k < |startpoints| ==>
      |Selector(startpoints, offset, boxlength)[k]| == boxlength
    ensures forall k, j :: 0 <= k < |startpoints| && 0 <= j < boxlength ==>
      Selector(startpoints, offset, boxlength)[k][j] == startpoints[k] + offset + j
    ensures forall k, j :: 0 <= k < |startpoints| && 0 <= j < |Selector(startpoints, offset, boxlength)[k]| ==>
      0 <= Selector(startpoints, offset, boxlength)[k][j] < dataLen
  {
    var sel := Selector(startpoints, offset, boxlength);
    forall k, j | 0 <= k < |startpoints| && 0 <= j < |sel[k]|
      ensures 0 <= sel[k][j] < dataLen
    {
      LegalBoxMeansInData(dataLen, startpoints[k], offset, boxlength);
    }
  }

  /** Gathering the rows of a range of indices is the same as slicing the data. */
  lemma WindowIsSlice<D>(data: seq<D>, lo: int, len: int)
    requires 0 <= lo && 0 <= len && lo + len <= |data|
    ensures Rows(data, Range(lo, lo + len)) == data[lo .. lo + len]
  {
  }
}
