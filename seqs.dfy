// The element sequences the kernels compute, as functions of the row-major
// element sequences of their operands: a pairwise combination, a map, a
// left fold, and the independent definitions of sum, count and extremum
// that the folds are proved against.

module Seqs {

  /** The pairwise combination of two sequences of one length. */
  function ZipWith<A, B, R>(xs: seq<A>, ys: seq<B>, f: (A, B) -> R): (r: seq<R>)
    requires |xs| == |ys|
    ensures |r| == |xs|
  {
    seq(|xs|, k requires 0 <= k < |xs| => f(xs[k], ys[k]))
  }

  /** The image of a sequence under f. */
  function Map<A, R>(xs: seq<A>, f: A -> R): (r: seq<R>)
    ensures |r| == |xs|
  {
    seq(|xs|, k requires 0 <= k < |xs| => f(xs[k]))
  }

  /**
   * The left fold of accumulate(): the accumulator starts at r and every
   * element, first to last, updates it by step(element, accumulator).
   */
  function Fold<A, R>(step: (A, R) -> R, r: R, xs: seq<A>): R
  {
    if |xs| == 0 then r else step(xs[|xs| - 1], Fold(step, r, xs[..|xs| - 1]))
  }

  /** The sum of a sequence, first element first. */
  function Sum(xs: seq<int>): int
  {
    if |xs| == 0 then 0 else xs[0] + Sum(xs[1..])
  }

  /** The positions of the elements that satisfy p. */
  function Matching<A>(xs: seq<A>, p: A -> bool): set<nat>
  {
    set i: nat | i < |xs| && p(xs[i])
  }

  /** The accumulation step of sum(): sum += ele. */
  function AddStep(ele: int, acc: int): int
  {
    acc + ele
  }

  /** The accumulation step of max(): if (mx < ele) mx = ele. */
  function MaxStep(ele: int, mx: int): int
  {
    if mx < ele then ele else mx
  }

  /** The accumulation step of min(): if (ele < mn) mn = ele. */
  function MinStep(ele: int, mn: int): int
  {
    if ele < mn then ele else mn
  }

  /** The accumulation step of count_if(): res += cond(ele). */
  function CountStep<A>(cond: A -> bool): (A, int) -> int
  {
    (ele: A, res: int) => if cond(ele) then res + 1 else res
  }

  /** Folding one more element is one more step. */
  lemma FoldSnoc<A, R>(step: (A, R) -> R, r: R, xs: seq<A>, x: A)
    ensures Fold(step, r, xs + [x]) == step(x, Fold(step, r, xs))
  {
    assert (xs + [x])[..|xs|] == xs;
  }

  /** Folding a non-empty sequence is folding its tail from the first step. */
  lemma {:induction false} FoldFront<A, R>(step: (A, R) -> R, r: R, xs: seq<A>)
    requires |xs| > 0
    ensures Fold(step, r, xs) == Fold(step, step(xs[0], r), xs[1..])
    decreases |xs|
  {
    if |xs| > 1 {
      var p := xs[..|xs| - 1];
      FoldFront(step, r, p);
      assert p[1..] == xs[1..][..|xs[1..]| - 1];
      assert xs[1..][|xs[1..]| - 1] == xs[|xs| - 1];
    } else {
      assert xs[..0] == [] && xs[1..] == [];
    }
  }

  /** The sum of a sequence with one more element at the back. */
  lemma {:induction false} SumSnoc(xs: seq<int>, x: int)
    ensures Sum(xs + [x]) == Sum(xs) + x
    decreases |xs|
  {
    if |xs| == 0 {
      assert [x][1..] == [];
    } else {
      assert (xs + [x])[1..] == xs[1..] + [x];
      SumSnoc(xs[1..], x);
    }
  }

  /** sum(): the fold of sum += ele from seed r is r plus the sum of the elements. */
  lemma {:induction false} FoldAddIsSum(r: int, xs: seq<int>)
    ensures Fold(AddStep, r, xs) == r + Sum(xs)
    decreases |xs|
  {
    if |xs| > 0 {
      var p := xs[..|xs| - 1];
      FoldAddIsSum(r, p);
      assert xs == p + [xs[|xs| - 1]];
      SumSnoc(p, xs[|xs| - 1]);
    }
  }

  /** max(): the fold of the max step is at least its seed and every element, and is one of them. */
  lemma {:induction false} FoldMaxIsMaximum(r: int, xs: seq<int>)
    ensures Fold(MaxStep, r, xs) >= r
    ensures forall i :: 0 <= i < |xs| ==> xs[i] <= Fold(MaxStep, r, xs)
    ensures Fold(MaxStep, r, xs) == r || exists i :: 0 <= i < |xs| && xs[i] == Fold(MaxStep, r, xs)
    decreases |xs|
  {
    if |xs| > 0 {
      var p := xs[..|xs| - 1];
      FoldMaxIsMaximum(r, p);
      forall i | 0 <= i < |xs| ensures xs[i] <= Fold(MaxStep, r, xs) {
        if i < |p| { assert xs[i] == p[i]; }
      }
      var m := Fold(MaxStep, r, p);
      if m != r && m >= xs[|xs| - 1] {
        var i :| 0 <= i < |p| && p[i] == m;
        assert xs[i] == m;
      }
    }
  }

  /** min(): the fold of the min step is at most its seed and every element, and is one of them. */
  lemma {:induction false} FoldMinIsMinimum(r: int, xs: seq<int>)
    ensures Fold(MinStep, r, xs) <= r
    ensures forall i :: 0 <= i < |xs| ==> Fold(MinStep, r, xs) <= xs[i]
    ensures Fold(MinStep, r, xs) == r || exists i :: 0 <= i < |xs| && xs[i] == Fold(MinStep, r, xs)
    decreases |xs|
  {
    if |xs| > 0 {
      var p := xs[..|xs| - 1];
      FoldMinIsMinimum(r, p);
      forall i | 0 <= i < |xs| ensures Fold(MinStep, r, xs) <= xs[i] {
        if i < |p| { assert xs[i] == p[i]; }
      }
      var m := Fold(MinStep, r, p);
      if m != r && m <= xs[|xs| - 1] {
        var i :| 0 <= i < |p| && p[i] == m;
        assert xs[i] == m;
      }
    }
  }

  /** count_if(): the fold of the count step from 0 is the number of matching positions. */
  lemma {:induction false} FoldCountIsMatching<A>(cond: A -> bool, xs: seq<A>)
    ensures Fold(CountStep(cond), 0, xs) == |Matching(xs, cond)|
    decreases |xs|
  {
    if |xs| > 0 {
      var n := |xs| - 1;
      var p := xs[..n];
      FoldCountIsMatching(cond, p);
      var before := Matching(p, cond);
      assert before == set i: nat | i < n && cond(xs[i]) by {
        forall i: nat | i < n ensures p[i] == xs[i] { }
      }
      if cond(xs[n]) {
        assert Matching(xs, cond) == before + {n};
        assert n !in before;
      } else {
        assert Matching(xs, cond) == before;
      }
    }
  }

  /** count_if() counts at most once per element. */
  lemma {:induction false} FoldCountBound<A>(cond: A -> bool, xs: seq<A>)
    ensures Fold(CountStep(cond), 0, xs) <= |xs|
    decreases |xs|
  {
    if |xs| > 0 {
      FoldCountBound(cond, xs[..|xs| - 1]);
    }
  }
}
