// The reductions, maps and factory functions of a matrix: accumulate in
// both forms and the max, min, sum and count_if over it, maps and apply,
// and the zeros, ones and eye constructors.

module Func {
  import opened Errors
  import opened Shape
  import opened Iter
  import opened Mat
  import opened Seqs
  import opened Algo
  import opened Blocks
  import Ops
  import Gemm

  // ---- accumulate ----

  /**
   * accumulate(func, res): logic_error on an invalid matrix; otherwise
   * every element, in row-major order, updates the accumulator that
   * starts at the seed. The raw pointers are walked when the matrix is
   * continuous and the iterators otherwise; both give the same fold.
   */
  method Accumulate<T(0), R>(m: Matrix<T>, step: (T, R) -> R, seed: R) returns (r: Result<R>)
    requires m.Valid()
    ensures r.Failure? <==> !m.IsValid()
    ensures r.Failure? ==> r.error == LogicError
    ensures r.Success? ==> m.buf != null && r.value == Fold(step, seed, m.Elements())
  {
    if !m.IsValid() {
      return Failure(LogicError);
    }
    ghost var xs := m.Elements();
    var first, last := Ops.Cursors(m);
    var res := AccumulateFrom(first, last, step, seed, xs);
    assert xs[0..] == xs;
    return Success(res);
  }

  /**
   * accumulate(func) without a seed: logic_error on an invalid matrix;
   * otherwise the accumulator starts at front(), the first element, and
   * the loop starts one past the first cursor, so the fold runs over the
   * remaining size() - 1 elements.
   */
  method AccumulateFront<T(0)>(m: Matrix<T>, step: (T, T) -> T) returns (r: Result<T>)
    requires m.Valid()
    ensures r.Failure? <==> !m.IsValid()
    ensures r.Failure? ==> r.error == LogicError
    ensures r.Success? ==> m.buf != null && r.value == Fold(step, m.Elements()[0], m.Elements()[1..])
  {
    if !m.IsValid() {
      return Failure(LogicError);
    }
    ghost var xs := m.Elements();
    var res := m.buf[m.Front()];
    var first, last := Ops.Cursors(m);
    var from := first.Plus(1);
    if |xs| == 1 {
      // begin() + 1 is end(): the loop body never runs.
      assert from.value.Pos() == last.Pos();
    }
    var acc := AccumulateFrom(from.value, last, step, res, xs);
    return Success(acc);
  }

  /** max(): the unseeded accumulate with if (mx < ele) mx = ele. */
  method Max(m: Matrix<int>) returns (r: Result<int>)
    requires m.Valid()
    ensures r.Failure? <==> !m.IsValid()
    ensures r.Failure? ==> r.error == LogicError
    ensures r.Success? ==> m.buf != null && IsMaximum(r.value, m.Elements())
  {
    r := AccumulateFront(m, MaxStep);
    if r.Success? {
      FrontFoldMax(m.Elements());
    }
  }

  /** min(): the unseeded accumulate with if (ele < mn) mn = ele. */
  method Min(m: Matrix<int>) returns (r: Result<int>)
    requires m.Valid()
    ensures r.Failure? <==> !m.IsValid()
    ensures r.Failure? ==> r.error == LogicError
    ensures r.Success? ==> m.buf != null && IsMinimum(r.value, m.Elements())
  {
    r := AccumulateFront(m, MinStep);
    if r.Success? {
      FrontFoldMin(m.Elements());
    }
  }

  /** sum(): the unseeded accumulate with sum += ele, the total of the elements. */
  method Total(m: Matrix<int>) returns (r: Result<int>)
    requires m.Valid()
    ensures r.Failure? <==> !m.IsValid()
    ensures r.Failure? ==> r.error == LogicError
    ensures r.Success? ==> m.buf != null && r.value == Sum(m.Elements())
  {
    r := AccumulateFront(m, AddStep);
    if r.Success? {
      FoldAddIsSum(m.Elements()[0], m.Elements()[1..]);
    }
  }

  /** x is an element of xs and no element of xs exceeds it. */
  ghost predicate IsMaximum(x: int, xs: seq<int>)
  {
    (exists k :: 0 <= k < |xs| && xs[k] == x) && forall k :: 0 <= k < |xs| ==> xs[k] <= x
  }

  /** x is an element of xs and no element of xs is below it. */
  ghost predicate IsMinimum(x: int, xs: seq<int>)
  {
    (exists k :: 0 <= k < |xs| && xs[k] == x) && forall k :: 0 <= k < |xs| ==> x <= xs[k]
  }

  /** Folding the max step over the tail from the first element gives the maximum. */
  lemma FrontFoldMax(xs: seq<int>)
    requires |xs| > 0
    ensures IsMaximum(Fold(MaxStep, xs[0], xs[1..]), xs)
  {
    var t := xs[1..];
    var mx := Fold(MaxStep, xs[0], t);
    FoldMaxIsMaximum(xs[0], t);
    forall k | 0 < k < |xs| ensures xs[k] <= mx {
      assert xs[k] == t[k - 1];
    }
    if mx != xs[0] {
      var i :| 0 <= i < |t| && t[i] == mx;
      assert xs[i + 1] == mx;
    }
  }

  /** Folding the min step over the tail from the first element gives the minimum. */
  lemma FrontFoldMin(xs: seq<int>)
    requires |xs| > 0
    ensures IsMinimum(Fold(MinStep, xs[0], xs[1..]), xs)
  {
    var t := xs[1..];
    var mn := Fold(MinStep, xs[0], t);
    FoldMinIsMinimum(xs[0], t);
    forall k | 0 < k < |xs| ensures mn <= xs[k] {
      assert xs[k] == t[k - 1];
    }
    if mn != xs[0] {
      var i :| 0 <= i < |t| && t[i] == mn;
      assert xs[i + 1] == mn;
    }
  }

  // ---- count_if ----

  /**
   * count_if(cond): the seeded accumulate from 0 with res += cond(ele),
   * the number of elements that satisfy cond, at most size().
   */
  method CountIf<T(0)>(m: Matrix<T>, cond: T -> bool) returns (r: Result<nat>)
    requires m.Valid()
    ensures r.Failure? <==> !m.IsValid()
    ensures r.Failure? ==> r.error == LogicError
    ensures r.Success? ==> m.buf != null && r.value == |Matching(m.Elements(), cond)| && r.value <= |m.Elements()|
  {
    var acc := Accumulate(m, CountStep(cond), 0);
    if acc.Failure? {
      return Failure(acc.error);
    }
    FoldCountIsMatching(cond, m.Elements());
    FoldCountBound(cond, m.Elements());
    return Success(acc.value);
  }

  /** count(val): count_if with ele == val. */
  method Count<T(0, ==)>(m: Matrix<T>, val: T) returns (r: Result<nat>)
    requires m.Valid()
    ensures r.Failure? <==> !m.IsValid()
    ensures r.Failure? ==> r.error == LogicError
    ensures r.Success? ==> m.buf != null && r.value == |set k: nat | k < |m.Elements()| && m.Elements()[k] == val|
  {
    r := CountIf(m, x => x == val);
    if r.Success? {
      assert Matching(m.Elements(), x => x == val) == set k: nat | k < |m.Elements()| && m.Elements()[k] == val;
    }
  }

  /** count_nonzero(): count_if with ele != 0. */
  method CountNonzero(m: Matrix<int>) returns (r: Result<nat>)
    requires m.Valid()
    ensures r.Failure? <==> !m.IsValid()
    ensures r.Failure? ==> r.error == LogicError
    ensures r.Success? ==> m.buf != null && r.value == |set k: nat | k < |m.Elements()| && m.Elements()[k] != 0|
  {
    r := CountIf(m, x => x != 0);
    if r.Success? {
      assert Matching(m.Elements(), x => x != 0) == set k: nat | k < |m.Elements()| && m.Elements()[k] != 0;
    }
  }

  // ---- maps and apply ----

  /**
   * maps(mapper): logic_error on an invalid matrix; otherwise a fresh
   * continuous matrix of the same extents whose k-th element is the
   * image of the k-th element.
   */
  method Maps<T(0), R(0)>(m: Matrix<T>, mapper: T -> R, zero: R) returns (r: Result<Matrix<R>>)
    requires m.Valid()
    ensures r.Failure? <==> !m.IsValid()
    ensures r.Failure? ==> r.error == LogicError
    ensures r.Success? ==> fresh(r.value) && Ops.Fresh(r.value, m.dim, m.sizes)
    ensures r.Success? ==> m.buf != null && r.value.Elements() == Map(m.Elements(), mapper)
  {
    if !m.IsValid() {
      return Failure(LogicError);
    }
    var res := Ops.Alloc(m.dim, m.sizes, zero);
    Ops.MatApply1(m, res, mapper);
    return Success(res);
  }

  /**
   * apply(op): logic_error on an invalid matrix; otherwise every element
   * is replaced in place by its image, once, and no other cell of the
   * shared buffer changes.
   */
  method Apply<T(0)>(m: Matrix<T>, op: T -> T) returns (o: Outcome)
    requires m.Valid()
    modifies m.buf
    ensures o.Fail? <==> !m.IsValid()
    ensures o.Fail? ==> o.error == LogicError
    ensures m.Valid()
    ensures o.Pass? ==> m.buf != null && m.Elements() == Map(old(m.Elements()), op)
    ensures o.Pass? ==> forall q :: 0 <= q < m.buf.Length && q !in Footprint(m.start, m.sizes, m.steps) ==>
                          m.buf[q] == old(m.buf[q])
  {
    if !m.IsValid() {
      return Fail(LogicError);
    }
    ghost var xs := m.Elements();
    var first, last := Ops.Cursors(m);
    ApplyEach(first, last, op, xs);
    Ops.SameGather(m, first.sizes, first.steps);
    forall q | 0 <= q < m.buf.Length && q !in Footprint(m.start, m.sizes, m.steps)
      ensures m.buf[q] == old(m.buf[q])
    {
      Ops.SameFootprint(m, first.sizes, first.steps, q);
    }
    return Pass;
  }

  // ---- zeros, ones, eye ----

  /** zeros(sizes...): a fresh matrix of the given extents filled with 0; invalid_argument for a zero extent. */
  method Zeros(dim: nat, shape: seq<nat>) returns (r: Result<Matrix<int>>)
    requires dim >= 1 && |shape| == dim
    ensures r.Failure? <==> !Positive(shape)
    ensures r.Failure? ==> r.error == InvalidArgument
    ensures r.Success? ==> fresh(r.value) && Ops.Fresh(r.value, dim, shape)
    ensures r.Success? ==> forall k :: 0 <= k < |r.value.Elements()| ==> r.value.Elements()[k] == 0
  {
    r := NewMatrix(dim, shape, 0);
  }

  /** ones(sizes...): a fresh matrix of the given extents filled with 1; invalid_argument for a zero extent. */
  method Ones(dim: nat, shape: seq<nat>) returns (r: Result<Matrix<int>>)
    requires dim >= 1 && |shape| == dim
    ensures r.Failure? <==> !Positive(shape)
    ensures r.Failure? ==> r.error == InvalidArgument
    ensures r.Success? ==> fresh(r.value) && Ops.Fresh(r.value, dim, shape)
    ensures r.Success? ==> forall k :: 0 <= k < |r.value.Elements()| ==> r.value.Elements()[k] == 1
  {
    r := NewMatrix(dim, shape, 1);
  }

  /** The n x n identity in row-major order. */
  function Identity(n: nat): (e: seq<int>)
    ensures |e| == n * n
  {
    seq(n * n, q => if OnDiagonal(q, n + 1, n) then 1 else 0)
  }

  /** q is one of the first i multiples of w: a cell the diagonal walk has written after i steps. */
  predicate OnDiagonal(q: int, w: nat, i: nat)
    requires w > 0
  {
    q % w == 0 && q / w < i
  }

  /** One more step of the walk adds exactly the cell i * w. */
  lemma OnDiagonalNext(q: nat, w: nat, i: nat)
    requires w > 0
    ensures OnDiagonal(q, w, i + 1) <==> OnDiagonal(q, w, i) || q == i * w
  {
    DivModOf(i, w, 0);
    if OnDiagonal(q, w, i + 1) && !OnDiagonal(q, w, i) {
      assert q == (q / w) * w + q % w;
    }
  }

  /**
   * eye(siz): res(siz, siz, 0), then a pointer from start_ptr writes 1
   * and moves siz + 1 cells, siz times: element (i, j) is 1 when i == j
   * and 0 otherwise. invalid_argument for siz == 0.
   */
  method Eye(siz: nat) returns (r: Result<Matrix<int>>)
    ensures r.Failure? <==> siz == 0
    ensures r.Failure? ==> r.error == InvalidArgument
    ensures r.Success? ==> fresh(r.value) && Ops.Fresh(r.value, 2, [siz, siz])
    ensures r.Success? ==> r.value.Elements() == Identity(siz)
  {
    var created := NewMatrix(2, [siz, siz], 0);
    if created.Failure? {
      return created;
    }
    var res := created.value;
    Product2(siz, siz);
    Ops.Run(res);
    var buf := res.buf;
    ghost var w := siz + 1;
    var ptr := res.start;
    var i := 0;
    while i < siz
      invariant 0 <= i <= siz && ptr == i * w
      invariant forall q :: 0 <= q < siz * siz ==> buf[q] == if OnDiagonal(q, w, i) then 1 else 0
      modifies buf
    {
      DiagonalStep(i, siz);
      buf[ptr] := 1;
      forall q | 0 <= q < siz * siz ensures buf[q] == if OnDiagonal(q, w, i + 1) then 1 else 0 {
        OnDiagonalNext(q, w, i);
      }
      ptr := ptr + siz + 1;
      i := i + 1;
    }
    Ops.Run(res);
    assert res.Elements() == Identity(siz) by {
      forall q | 0 <= q < siz * siz ensures res.Elements()[q] == Identity(siz)[q] {
        assert res.Elements()[q] == buf[q];
      }
    }
    return Success(res);
  }

  /** The i-th diagonal cell i * (n + 1) is inside an n x n matrix and is the only cell with quotient i and no remainder. */
  lemma DiagonalStep(i: nat, n: nat)
    requires i < n
    ensures i * (n + 1) < n * n
    ensures (i * (n + 1)) % (n + 1) == 0 && (i * (n + 1)) / (n + 1) == i
  {
    MulLe(i, n - 1, n + 1);
    DivModOf(i, n + 1, 0);
  }

  /** Element (i, j) of the identity is 1 exactly on the diagonal. */
  lemma IdentityCell(n: nat, i: nat, j: nat)
    requires i < n && j < n
    ensures i * n + j < n * n
    ensures Identity(n)[i * n + j] == if i == j then 1 else 0
  {
    var w := n + 1;
    var q := i * n + j;
    MulLe(i, n - 1, n);
    MulSucc(n - 1, n);
    assert i * w == i * n + i;
    if j >= i {
      assert q == i * w + (j - i);
      DivModOf(i, w, j - i);
    } else {
      assert (i - 1) * w == i * w - w;
      assert q == (i - 1) * w + (w + j - i);
      DivModOf(i - 1, w, w + j - i);
    }
  }

  /** Entry (r, c) of eye(n) * y summed over inner indices below k: row r of y once k has passed r. */
  lemma {:induction false} EyeEntry(n: nat, y: seq<int>, N: nat, r: nat, c: nat, k: nat)
    requires r < n && k <= n
    ensures Gemm.Entry(Identity(n), y, n, N, r, c, k) == if r < k then Gemm.Get(y, r * N + c) else 0
    decreases k
  {
    if k > 0 {
      EyeEntry(n, y, N, r, c, k - 1);
      IdentityCell(n, r, k - 1);
      assert Gemm.Get(Identity(n), r * n + k - 1) == if r == k - 1 then 1 else 0;
    }
  }

  /** eye(n) is the identity of the matrix product: eye(n) * y == y for every n x N matrix y. */
  lemma EyeIsIdentity(n: nat, y: seq<int>, N: nat)
    requires |y| == n * N
    ensures Gemm.MatProduct(Identity(n), y, n, n, N) == y
  {
    forall q | 0 <= q < n * N ensures Gemm.MatProduct(Identity(n), y, n, n, N)[q] == y[q] {
      EyeCell(n, y, N, q);
    }
  }

  lemma EyeCell(n: nat, y: seq<int>, N: nat, q: nat)
    requires |y| == n * N && q < n * N
    ensures Gemm.MatProduct(Identity(n), y, n, n, N)[q] == y[q]
  {
    var r, c := q / N, q % N;
    assert q == r * N + c;
    assert r < n by {
      if r >= n {
        MulLe(n, r, N);
      }
    }
    EyeEntry(n, y, N, r, c, n);
  }
}
