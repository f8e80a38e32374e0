/**
 * `getUniqueLengthNCombinations(data, n)` and its recursive helper `take`.
 *
 * `take` walks over every position of `data`; at a position whose flag in
 * the shared `occupied` list is not set it either appends the finished list
 * (at the last depth) or sets the flag and recurses one depth further with
 * the element added. The statement after the recursive call compares the
 * flag with False and discards the result, so a flag, once set, stays set.
 * The result list shared by all calls is threaded through the calls here.
 */
module Combinations {
  import opened CombinationIndex

  /** What a call to `take` leaves behind: the lists it appended and the flags. */
  datatype State<T> = State(combos: seq<seq<T>>, occupied: seq<bool>)

  /** The elements of `data` at positions `idx`. */
  function Pick<T>(data: seq<T>, idx: seq<nat>): (r: seq<T>)
    requires InRange(idx, |data|)
    ensures |r| == |idx|
    ensures forall k :: 0 <= k < |idx| ==> r[k] == data[idx[k]]
  {
    seq(|idx|, k requires 0 <= k < |idx| => data[idx[k]])
  }

  /** Each position list turned into the list of elements it selects. */
  function PickAll<T>(data: seq<T>, cs: seq<seq<nat>>): (r: seq<seq<T>>)
    requires forall c :: c in cs ==> InRange(c, |data|)
    ensures |r| == |cs|
    ensures forall k :: 0 <= k < |cs| ==> r[k] == Pick(data, cs[k])
  {
    seq(|cs|, k requires 0 <= k < |cs| => Pick(data, cs[k]))
  }

  /** Every flag set in `before` is still set in `after`. */
  predicate StaysSet(before: seq<bool>, after: seq<bool>)
  {
    |before| == |after| && forall k :: 0 <= k < |before| && before[k] ==> after[k]
  }

  /** The depths still to go before the last one; what bounds the recursion. */
  function Budget(n: int, depth: nat): nat
  {
    if depth < n then n - depth else 0
  }

  /** One call `take(data, occupied, depth, taken)`. */
  function TakeCall<T>(data: seq<T>, n: int, occupied: seq<bool>, depth: nat, taken: seq<T>): (s: State<T>)
    requires |occupied| == |data|
    ensures |s.occupied| == |data|
    ensures StaysSet(occupied, s.occupied)
    decreases Budget(n, depth), |data| + 1
  {
    Scan(data, n, occupied, depth, taken, |data|)
  }

  /** The first `i` iterations of the loop of one `take` call. */
  function Scan<T>(data: seq<T>, n: int, occupied: seq<bool>, depth: nat, taken: seq<T>, i: nat): (s: State<T>)
    requires |occupied| == |data| && i <= |data|
    ensures |s.occupied| == |data|
    ensures StaysSet(occupied, s.occupied)
    decreases Budget(n, depth), i
  {
    if i == 0 then State([], occupied)
    else
      var s := Scan(data, n, occupied, depth, taken, i - 1);
      if s.occupied[i - 1] then s
      else if depth < n - 1 then
        var r := TakeCall(data, n, s.occupied[i - 1 := true], depth + 1, taken + [data[i - 1]]);
        State(s.combos + r.combos, r.occupied)
      else
        State(s.combos + [taken + [data[i - 1]]], s.occupied)
  }

  /** `take`, appending to `combos` and updating the flags in place. */
  method Take<T>(data: seq<T>, n: int, occupied: array<bool>, depth: nat, taken: seq<T>, combos: seq<seq<T>>)
    returns (combos': seq<seq<T>>)
    requires occupied.Length == |data|
    modifies occupied
    ensures combos' == combos + TakeCall(data, n, old(occupied[..]), depth, taken).combos
    ensures occupied[..] == TakeCall(data, n, old(occupied[..]), depth, taken).occupied
    decreases Budget(n, depth)
  {
    combos' := combos;
    for i := 0 to |data|
      invariant combos' == combos + Scan(data, n, old(occupied[..]), depth, taken, i).combos
      invariant occupied[..] == Scan(data, n, old(occupied[..]), depth, taken, i).occupied
    {
      if occupied[i] == false {
        if depth < n - 1 {
          occupied[i] := true;
          combos' := Take(data, n, occupied, depth + 1, taken + [data[i]], combos');
          // the flag is compared with false here, not cleared
        } else {
          combos' := combos' + [taken + [data[i]]];
        }
      }
    }
  }

  /** The flags of the positions below `p` set, the others clear. */
  function Flags(p: nat, len: nat): (f: seq<bool>)
    ensures |f| == len
  {
    seq(len, k => k < p)
  }

  lemma FlagsSet(p: nat, len: nat)
    requires p < len
    ensures Flags(p, len)[p := true] == Flags(p + 1, len)
    ensures !Flags(p, len)[p]
  {
  }

  /** The whole function: all flags clear, depth 0, nothing taken yet. */
  method GetUniqueLengthNCombinations<T>(data: seq<T>, n: int) returns (combos: seq<seq<T>>)
    ensures combos == PickAll(data, Combos(|data|, n))
  {
    var occupied := new bool[|data|](_ => false);
    assert occupied[..] == Flags(0, |data|);
    combos := Take(data, n, occupied, 0, [], []);
    TakeFromStart(data, n);
  }

  lemma PickAppend<T>(data: seq<T>, t: seq<nat>, k: nat)
    requires InRange(t, |data|) && k < |data|
    ensures InRange(t + [k], |data|)
    ensures Pick(data, t + [k]) == Pick(data, t) + [data[k]]
  {
  }

  lemma PickAllConcat<T>(data: seq<T>, xs: seq<seq<nat>>, ys: seq<seq<nat>>)
    requires forall c :: c in xs ==> InRange(c, |data|)
    requires forall c :: c in ys ==> InRange(c, |data|)
    ensures forall c :: c in xs + ys ==> InRange(c, |data|)
    ensures PickAll(data, xs + ys) == PickAll(data, xs) + PickAll(data, ys)
  {
  }

  /** Iterations over positions whose flags are already set change nothing. */
  lemma {:induction false} ScanSkipsOccupied<T>(data: seq<T>, n: int, occupied: seq<bool>, depth: nat, taken: seq<T>, j: nat, i: nat)
    requires |occupied| == |data| && j <= i <= |data|
    requires forall k :: j <= k < i ==> Scan(data, n, occupied, depth, taken, j).occupied[k]
    ensures Scan(data, n, occupied, depth, taken, i) == Scan(data, n, occupied, depth, taken, j)
    decreases i
  {
    if i > j {
      ScanSkipsOccupied(data, n, occupied, depth, taken, j, i - 1);
    }
  }

  /**
   * At the last depth a call appends `taken` extended by each free element,
   * and sets no flag.
   */
  lemma {:induction false} LastDepthScan<T>(data: seq<T>, n: int, p: nat, depth: nat, t: seq<nat>, i: nat)
    requires depth >= n - 1 && i <= |data| && InRange(t, |data|)
    ensures forall c :: c in Leaves(t, p, i) ==> InRange(c, |data|)
    ensures Scan(data, n, Flags(p, |data|), depth, Pick(data, t), i)
            == State(PickAll(data, Leaves(t, p, i)), Flags(p, |data|))
    decreases i
  {
    if i > 0 {
      LastDepthScan(data, n, p, depth, t, i - 1);
      if i - 1 >= p {
        LastDepthFree(data, n, p, depth, t, i);
      } else {
        LastDepthTaken(data, n, p, depth, t, i);
      }
    }
  }

  /** The step of `LastDepthScan` at a free position: one more finished list. */
  lemma LastDepthFree<T>(data: seq<T>, n: int, p: nat, depth: nat, t: seq<nat>, i: nat)
    requires depth >= n - 1 && p < i <= |data| && InRange(t, |data|)
    requires forall c :: c in Leaves(t, p, i - 1) ==> InRange(c, |data|)
    requires Scan(data, n, Flags(p, |data|), depth, Pick(data, t), i - 1)
             == State(PickAll(data, Leaves(t, p, i - 1)), Flags(p, |data|))
    ensures forall c :: c in Leaves(t, p, i) ==> InRange(c, |data|)
    ensures Scan(data, n, Flags(p, |data|), depth, Pick(data, t), i)
            == State(PickAll(data, Leaves(t, p, i)), Flags(p, |data|))
  {
    var len := |data|;
    var taken := Pick(data, t);
    var before := Leaves(t, p, i - 1);
    ScanAppends(data, n, Flags(p, len), depth, taken, i);
    assert !Flags(p, len)[i - 1];
    PickAppend(data, t, i - 1);
    PickAllConcat(data, before, [t + [i - 1]]);
    assert PickAll(data, [t + [i - 1]]) == [taken + [data[i - 1]]];
    assert Leaves(t, p, i) == before + [t + [i - 1]];
  }

  /** The step of `LastDepthScan` at a flagged position: nothing changes. */
  lemma LastDepthTaken<T>(data: seq<T>, n: int, p: nat, depth: nat, t: seq<nat>, i: nat)
    requires depth >= n - 1 && 0 < i <= p && i <= |data| && InRange(t, |data|)
    requires Scan(data, n, Flags(p, |data|), depth, Pick(data, t), i - 1)
             == State(PickAll(data, Leaves(t, p, i - 1)), Flags(p, |data|))
    ensures Leaves(t, p, i) == []
    ensures Scan(data, n, Flags(p, |data|), depth, Pick(data, t), i)
            == State(PickAll(data, Leaves(t, p, i)), Flags(p, |data|))
  {
    ScanAppends(data, n, Flags(p, |data|), depth, Pick(data, t), i);
    assert Flags(p, |data|)[i - 1];
  }

  /** One iteration at the last depth: a free position adds one finished list and no flag. */
  lemma ScanAppends<T>(data: seq<T>, n: int, occupied: seq<bool>, depth: nat, taken: seq<T>, i: nat)
    requires |occupied| == |data| && 0 < i <= |data| && depth >= n - 1
    ensures var s := Scan(data, n, occupied, depth, taken, i - 1);
            Scan(data, n, occupied, depth, taken, i)
            == if s.occupied[i - 1] then s else State(s.combos + [taken + [data[i - 1]]], s.occupied)
  {
  }

  /** One iteration at a free position below the last depth: flag it and recurse. */
  lemma ScanDescends<T>(data: seq<T>, n: int, occupied: seq<bool>, depth: nat, taken: seq<T>, i: nat)
    requires |occupied| == |data| && 0 < i <= |data| && depth < n - 1
    requires !Scan(data, n, occupied, depth, taken, i - 1).occupied[i - 1]
    ensures var s := Scan(data, n, occupied, depth, taken, i - 1);
            var r := TakeCall(data, n, s.occupied[i - 1 := true], depth + 1, taken + [data[i - 1]]);
            Scan(data, n, occupied, depth, taken, i) == State(s.combos + r.combos, r.occupied)
  {
  }

  /**
   * One depth above the last, each free position i is flagged in turn and
   * the recursive call appends every t + [i, j] with j > i.
   */
  lemma {:induction false} PairDepthScan<T>(data: seq<T>, n: int, p: nat, depth: nat, t: seq<nat>, i: nat)
    requires depth == n - 2 && p <= |data| && i <= |data| && InRange(t, |data|)
    ensures forall c :: c in Pairs(t, p, i, |data|) ==> InRange(c, |data|)
    ensures Scan(data, n, Flags(p, |data|), depth, Pick(data, t), i).combos == PickAll(data, Pairs(t, p, i, |data|))
    ensures Scan(data, n, Flags(p, |data|), depth, Pick(data, t), i).occupied == Flags(if i < p then p else i, |data|)
    decreases i
  {
    var len := |data|;
    if i > 0 {
      PairDepthScan(data, n, p, depth, t, i - 1);
      var taken := Pick(data, t);
      var s := Scan(data, n, Flags(p, len), depth, taken, i - 1);
      if i - 1 >= p {
        assert (if i - 1 < p then p else i - 1) == i - 1;
        assert s.occupied == Flags(i - 1, len);
        FlagsSet(i - 1, len);
        ScanDescends(data, n, Flags(p, len), depth, taken, i);
        var r := TakeCall(data, n, Flags(i, len), depth + 1, taken + [data[i - 1]]);
        assert Scan(data, n, Flags(p, len), depth, taken, i) == State(s.combos + r.combos, r.occupied);
        PickAppend(data, t, i - 1);
        LastDepthScan(data, n, i, depth + 1, t + [i - 1], len);
        assert r.combos == PickAll(data, Leaves(t + [i - 1], i, len));
        assert r.occupied == Flags(i, len);
        PickAllConcat(data, Pairs(t, p, i - 1, len), Leaves(t + [i - 1], i, len));
        assert Pairs(t, p, i, len) == Pairs(t, p, i - 1, len) + Leaves(t + [i - 1], i, len);
      } else {
        assert s.occupied[i - 1];
        assert Pairs(t, p, i, len) == [];
      }
    }
  }

  /**
   * Below that depth the first free position is flagged, the recursion
   * runs, and on return every flag is set, so the loop does nothing more.
   */
  lemma {:induction false} DeepTake<T>(data: seq<T>, n: int, depth: nat)
    requires depth <= n - 2 && depth <= |data|
    ensures forall c :: c in Pairs(Prefix(n - 2), n - 2, |data|, |data|) ==> InRange(c, |data|)
    ensures TakeCall(data, n, Flags(depth, |data|), depth, Pick(data, Prefix(depth)))
            == State(PickAll(data, Pairs(Prefix(n - 2), n - 2, |data|, |data|)), Flags(|data|, |data|))
    decreases n - depth
  {
    var len := |data|;
    var all := Pairs(Prefix(n - 2), n - 2, len, len);
    var taken := Pick(data, Prefix(depth));
    if depth == n - 2 {
      PairDepthScan(data, n, depth, depth, Prefix(depth), len);
    } else if depth == len {
      ScanSkipsOccupied(data, n, Flags(len, len), depth, taken, 0, len);
    } else {
      ScanSkipsOccupied(data, n, Flags(depth, len), depth, taken, 0, depth);
      assert Flags(depth, len)[depth := true] == Flags(depth + 1, len);
      assert Prefix(depth + 1) == Prefix(depth) + [depth];
      PickAppend(data, Prefix(depth), depth);
      DeepTake(data, n, depth + 1);
      ScanSkipsOccupied(data, n, Flags(depth, len), depth, taken, depth + 1, len);
    }
  }

  /** The top-level call with all flags clear produces `Combos`. */
  lemma TakeFromStart<T>(data: seq<T>, n: int)
    ensures TakeCall(data, n, Flags(0, |data|), 0, []).combos == PickAll(data, Combos(|data|, n))
  {
    assert Pick(data, []) == [];
    if n <= 1 {
      LastDepthScan(data, n, 0, 0, [], |data|);
    } else {
      assert Prefix(0) == [];
      DeepTake(data, n, 0);
    }
  }

  /** For n >= 2 the flags end up all set: none is ever cleared. */
  lemma FlagsNeverCleared<T>(data: seq<T>, n: int)
    requires n >= 2
    ensures TakeCall(data, n, Flags(0, |data|), 0, []).occupied == seq(|data|, _ => true)
  {
    assert Pick(data, Prefix(0)) == [];
    DeepTake(data, n, 0);
  }

  /** For n <= 1, including 0, the result is one singleton per element, in order. */
  lemma SingletonsForSmallN<T>(data: seq<T>, n: int)
    requires n <= 1
    ensures PickAll(data, Combos(|data|, n)) == seq(|data|, k requires 0 <= k < |data| => [data[k]])
  {
    CombosSingletons(|data|, n);
    var r := PickAll(data, Combos(|data|, n));
    forall k | 0 <= k < |data| ensures r[k] == [data[k]] {
      assert Combos(|data|, n)[k] == [k];
    }
  }
}
