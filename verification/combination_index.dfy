/**
 * What `getUniqueLengthNCombinations` emits, written as positions into its
 * `data` argument, and the properties of that output.
 *
 * The flags of its backtracking are never cleared (the statement meant to
 * free an element compares instead of assigning), so the occupied flags are
 * always a prefix of the positions. The consequence: for n <= 1 the output
 * is every singleton; for n >= 2 it is every list
 * [0, 1, ..., n-3, i, j] with n-2 <= i < j < len(data), in lexicographic
 * order. For n = 2 that is all pairs; for n >= 3 only the lists that start
 * with the first n-2 positions.
 */
module CombinationIndex {

  /** Every position in `c` indexes data of length `len`. */
  predicate InRange(c: seq<nat>, len: nat)
  {
    forall k :: 0 <= k < |c| ==> c[k] < len
  }

  /** The positions 0, 1, ..., d-1. */
  function Prefix(d: nat): (r: seq<nat>)
    ensures |r| == d
    ensures forall k :: 0 <= k < d ==> r[k] == k
  {
    seq(d, k => k)
  }

  /** The lists t + [k] for lo <= k < hi, in increasing k. */
  function Leaves(t: seq<nat>, lo: nat, hi: nat): (r: seq<seq<nat>>)
    ensures |r| == if lo <= hi then hi - lo else 0
    ensures forall j :: 0 <= j < |r| ==> r[j] == t + [lo + j]
  {
    if lo < hi then seq(hi - lo, j requires 0 <= j < hi - lo => t + [lo + j]) else []
  }

  /**
   * The lists t + [i, j] for lo <= i < hi and i < j < len, ordered by i and
   * then by j.
   */
  function Pairs(t: seq<nat>, lo: nat, hi: nat, len: nat): seq<seq<nat>>
    decreases hi
  {
    if hi <= lo then [] else Pairs(t, lo, hi - 1, len) + Leaves(t + [hi - 1], hi, len)
  }

  /** A listed pair extends `t` by two increasing positions i < j with lo <= i < hi and j < len. */
  lemma {:induction false} PairsShape(t: seq<nat>, lo: nat, hi: nat, len: nat, c: seq<nat>)
    requires c in Pairs(t, lo, hi, len)
    ensures |c| == |t| + 2 && c[..|t|] == t
    ensures lo <= c[|t|] < hi && c[|t|] < c[|t| + 1] < len
    decreases hi
  {
    var leaves := Leaves(t + [hi - 1], hi, len);
    if c in Pairs(t, lo, hi - 1, len) {
      PairsShape(t, lo, hi - 1, len, c);
    } else {
      var j :| 0 <= j < |leaves| && leaves[j] == c;
      assert c == t + [hi - 1, hi + j];
    }
  }

  /** The output of `getUniqueLengthNCombinations` for data of length `len`, as positions. */
  function Combos(len: nat, n: int): (r: seq<seq<nat>>)
    ensures forall c :: c in r ==> InRange(c, len)
  {
    if n <= 1 then Leaves([], 0, len)
    else
      var r := Pairs(Prefix(n - 2), n - 2, len, len);
      assert forall c :: c in r ==> InRange(c, len) by {
        forall c | c in r ensures InRange(c, len) {
          PairsShape(Prefix(n - 2), n - 2, len, len, c);
          assert c == Prefix(n - 2) + [c[n - 2], c[n - 1]] by {
            assert c == c[..n - 2] + c[n - 2..];
          }
        }
      }
      r
  }

  /** Positions strictly increase along `c`: no element is taken twice. */
  predicate Increasing(c: seq<nat>)
  {
    forall a, b :: 0 <= a < b < |c| ==> c[a] < c[b]
  }

  /** `c` selects `n` distinct elements of data of length `len`, in data order. */
  predicate IsCombination(c: seq<nat>, len: nat, n: nat)
  {
    |c| == n && Increasing(c) && InRange(c, len)
  }

  /** Strict lexicographic order on position lists. */
  predicate LexLess(a: seq<nat>, b: seq<nat>)
  {
    a != [] && b != [] && (a[0] < b[0] || (a[0] == b[0] && LexLess(a[1..], b[1..])))
  }

  /** Every list comes strictly before every later one. */
  predicate LexSorted(cs: seq<seq<nat>>)
  {
    forall a, b :: 0 <= a < b < |cs| ==> LexLess(cs[a], cs[b])
  }

  /** Lists with a common head compare as their tails do. */
  lemma {:induction false} LexLessCommonPrefix(t: seq<nat>, u: seq<nat>, v: seq<nat>)
    requires LexLess(u, v)
    ensures LexLess(t + u, t + v)
  {
    if t == [] {
      assert t + u == u && t + v == v;
    } else {
      LexLessCommonPrefix(t[1..], u, v);
      assert (t + u)[0] == (t + v)[0];
      assert (t + u)[1..] == t[1..] + u && (t + v)[1..] == t[1..] + v;
    }
  }

  /** Two sorted runs, the first wholly before the second, make a sorted run. */
  lemma LexSortedConcat(xs: seq<seq<nat>>, ys: seq<seq<nat>>)
    requires LexSorted(xs) && LexSorted(ys)
    requires forall x, y :: x in xs && y in ys ==> LexLess(x, y)
    ensures LexSorted(xs + ys)
  {
    var zs := xs + ys;
    forall a, b | 0 <= a < b < |zs| ensures LexLess(zs[a], zs[b]) {
      if b < |xs| {
        assert zs[a] == xs[a] && zs[b] == xs[b];
      } else if a >= |xs| {
        assert zs[a] == ys[a - |xs|] && zs[b] == ys[b - |xs|];
      } else {
        assert zs[a] == xs[a] && zs[b] == ys[b - |xs|];
        assert xs[a] in xs && ys[b - |xs|] in ys;
      }
    }
  }

  lemma LeavesSorted(t: seq<nat>, lo: nat, hi: nat)
    ensures LexSorted(Leaves(t, lo, hi))
  {
    var r := Leaves(t, lo, hi);
    forall a, b | 0 <= a < b < |r| ensures LexLess(r[a], r[b]) {
      assert LexLess([lo + a], [lo + b]);
      LexLessCommonPrefix(t, [lo + a], [lo + b]);
    }
  }

  lemma SplitAfter(x: seq<nat>, t: seq<nat>)
    requires |x| == |t| + 2 && x[..|t|] == t
    ensures x == t + [x[|t|], x[|t| + 1]]
  {
    assert x == x[..|t|] + x[|t|..];
    assert x[|t|..] == [x[|t|], x[|t| + 1]];
  }

  /** A list of an earlier i comes before every list t + [hi - 1, j]. */
  lemma PairsBeforeLeaves(t: seq<nat>, lo: nat, hi: nat, len: nat, x: seq<nat>, y: seq<nat>)
    requires lo < hi
    requires x in Pairs(t, lo, hi - 1, len) && y in Leaves(t + [hi - 1], hi, len)
    ensures LexLess(x, y)
  {
    var leaves := Leaves(t + [hi - 1], hi, len);
    var j :| 0 <= j < |leaves| && leaves[j] == y;
    assert y == t + [hi - 1, hi + j];
    PairsShape(t, lo, hi - 1, len, x);
    SplitAfter(x, t);
    assert LexLess([x[|t|], x[|t| + 1]], [hi - 1, hi + j]);
    LexLessCommonPrefix(t, [x[|t|], x[|t| + 1]], [hi - 1, hi + j]);
  }

  lemma {:induction false} PairsSorted(t: seq<nat>, lo: nat, hi: nat, len: nat)
    ensures LexSorted(Pairs(t, lo, hi, len))
    decreases hi
  {
    if hi > lo {
      var earlier := Pairs(t, lo, hi - 1, len);
      var leaves := Leaves(t + [hi - 1], hi, len);
      PairsSorted(t, lo, hi - 1, len);
      LeavesSorted(t + [hi - 1], hi, len);
      forall x, y | x in earlier && y in leaves ensures LexLess(x, y) {
        PairsBeforeLeaves(t, lo, hi, len, x, y);
      }
      LexSortedConcat(earlier, leaves);
      assert Pairs(t, lo, hi, len) == earlier + leaves;
    }
  }

  /** The output is in strictly increasing lexicographic order of positions. */
  lemma CombosSorted(len: nat, n: int)
    ensures LexSorted(Combos(len, n))
  {
    if n <= 1 {
      LeavesSorted([], 0, len);
    } else {
      PairsSorted(Prefix(n - 2), n - 2, len, len);
    }
  }

  /** Every pair t + [i, j] with lo <= i < hi and i < j < len is listed. */
  lemma {:induction false} PairsComplete(t: seq<nat>, lo: nat, hi: nat, len: nat, i: nat, j: nat)
    requires lo <= i < hi && i < j < len
    ensures t + [i, j] in Pairs(t, lo, hi, len)
    decreases hi
  {
    var leaves := Leaves(t + [hi - 1], hi, len);
    if i < hi - 1 {
      PairsComplete(t, lo, hi - 1, len, i, j);
    } else {
      assert leaves[j - hi] == t + [i, j];
    }
  }

  /** For n >= 2 every emitted list is a combination of n positions starting 0, 1, ..., n-3. */
  lemma CombosSound(len: nat, n: int, c: seq<nat>)
    requires n >= 2 && c in Combos(len, n)
    ensures IsCombination(c, len, n) && c[..n - 2] == Prefix(n - 2)
  {
    var t := Prefix(n - 2);
    PairsShape(t, n - 2, len, len, c);
    forall a, b | 0 <= a < b < |c| ensures c[a] < c[b] {
      if b < n - 2 {
        assert c[a] == c[..n - 2][a] && c[b] == c[..n - 2][b];
      } else if a < n - 2 {
        assert c[a] == c[..n - 2][a];
      }
    }
  }

  /** For n >= 2 every combination of n positions starting 0, 1, ..., n-3 is emitted. */
  lemma CombosComplete(len: nat, n: int, c: seq<nat>)
    requires n >= 2 && IsCombination(c, len, n) && c[..n - 2] == Prefix(n - 2)
    ensures c in Combos(len, n)
  {
    var t := Prefix(n - 2);
    if n > 2 {
      assert c[n - 3] == c[..n - 2][n - 3] == n - 3;
    }
    assert c == t + [c[n - 2], c[n - 1]] by {
      assert c == c[..n - 2] + c[n - 2..];
      assert c[n - 2..] == [c[n - 2], c[n - 1]];
    }
    PairsComplete(t, n - 2, len, len, c[n - 2], c[n - 1]);
  }

  /**
   * For n >= 2 a list is emitted exactly when it is a combination of n
   * positions whose first n-2 positions are 0, 1, ..., n-3.
   */
  lemma CombosCharacterization(len: nat, n: int, c: seq<nat>)
    requires n >= 2
    ensures c in Combos(len, n) <==> IsCombination(c, len, n) && c[..n - 2] == Prefix(n - 2)
  {
    if c in Combos(len, n) {
      CombosSound(len, n, c);
    }
    if IsCombination(c, len, n) && c[..n - 2] == Prefix(n - 2) {
      CombosComplete(len, n, c);
    }
  }

  /** Every emitted list is a combination: n distinct positions (one position when n <= 1), increasing. */
  lemma CombosAreCombinations(len: nat, n: int, c: seq<nat>)
    requires c in Combos(len, n)
    ensures IsCombination(c, len, if n <= 1 then 1 else n)
  {
    if n >= 2 {
      CombosCharacterization(len, n, c);
    } else {
      var r := Leaves([], 0, len);
      var j :| 0 <= j < |r| && r[j] == c;
      assert c == [j];
    }
  }

  /** For n <= 1, including n = 0, the output is one singleton per position, in order. */
  lemma CombosSingletons(len: nat, n: int)
    requires n <= 1
    ensures Combos(len, n) == seq(len, k => [k])
  {
    var r := Combos(len, n);
    forall k | 0 <= k < len ensures r[k] == [k] {
      assert r[k] == [] + [0 + k];
    }
  }

  /** For n >= 1 and fewer than n elements, nothing is emitted. */
  lemma CombosTooFew(len: nat, n: int)
    requires n >= 1 && len < n
    ensures Combos(len, n) == []
  {
    if n >= 2 {
      var r := Combos(len, n);
      if r != [] {
        PairsShape(Prefix(n - 2), n - 2, len, len, r[0]);
      }
    }

  }

  /** For n = 2 the output holds exactly the pairs of distinct positions. */
  lemma CombosOfTwo(len: nat, c: seq<nat>)
    ensures c in Combos(len, 2) <==> IsCombination(c, len, 2)
  {
    CombosCharacterization(len, 2, c);
  }

  /** (len - lo - 1) + (len - lo - 2) + ... + (len - hi): the number of pairs with first position in [lo, hi). */
  function PairCount(lo: nat, hi: nat, len: nat): nat
    decreases hi
  {
    if hi <= lo then 0 else PairCount(lo, hi - 1, len) + (if hi <= len then len - hi else 0)
  }

  lemma {:induction false} PairsLength(t: seq<nat>, lo: nat, hi: nat, len: nat)
    ensures |Pairs(t, lo, hi, len)| == PairCount(lo, hi, len)
    decreases hi
  {
    if hi > lo {
      PairsLength(t, lo, hi - 1, len);
    }
  }

  lemma {:induction false} PairCountClosed(hi: nat, len: nat)
    requires hi <= len
    ensures 2 * PairCount(0, hi, len) == hi * (2 * len - hi - 1)
  {
    if hi > 0 {
      PairCountClosed(hi - 1, len);
      CountStep(len, hi);
    }
  }

  lemma CountStep(len: int, hi: int)
    ensures (hi - 1) * (2 * len - hi) + 2 * (len - hi) == hi * (2 * len - hi - 1)
  {
    var w := 2 * len - hi;
    assert (hi - 1) * w == hi * w - w;
    assert hi * (w - 1) == hi * w - hi;
  }

  /** For n = 2 the output has len * (len - 1) / 2 lists. */
  lemma CombosOfTwoCount(len: nat)
    ensures |Combos(len, 2)| == len * (len - 1) / 2
  {
    assert Prefix(0) == [];
    PairsLength([], 0, len, len);
    PairCountClosed(len, len);
  }

  /** For n >= 3 every emitted list starts with position 0. */
  lemma CombosStartAtZero(len: nat, n: int, c: seq<nat>)
    requires n >= 3 && c in Combos(len, n)
    ensures |c| == n && c[0] == 0
  {
    CombosSound(len, n, c);
    assert c[0] == c[..n - 2][0];
  }

  /**
   * For n >= 3 and more than n elements some combination is missing: the
   * positions 1, 2, ..., n are a combination that is never emitted.
   */
  lemma CombosMissSome(len: nat, n: int)
    requires n >= 3 && len > n
    ensures IsCombination(seq(n, k => k + 1), len, n)
    ensures seq(n, k => k + 1) !in Combos(len, n)
  {
    var c := seq(n, k => k + 1);
    if c in Combos(len, n) {
      CombosStartAtZero(len, n, c);
    }
  }
}
