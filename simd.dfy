// The element-wise arithmetic loops on runs of integers: dst[i] = a[i] op b[i]
// for i below size, with a run or a single value on either side. A run is
// an array and the position of its first element. The destination may be
// one of the operands when it does not start after it, so that every
// operand element is read before the loop can overwrite it.

module Simd {
  import opened Shape
  import opened Seqs

  function Add(x: int, y: int): int { x + y }
  function Sub(x: int, y: int): int { x - y }
  function Mul(x: int, y: int): int { x * y }

  /** The quotients of C++ integer division, element by element; no divisor may be zero. */
  function Quotients(xs: seq<int>, ys: seq<int>): (r: seq<int>)
    requires |xs| == |ys| && forall k :: 0 <= k < |ys| ==> ys[k] != 0
    ensures |r| == |xs|
  {
    seq(|xs|, k requires 0 <= k < |xs| => TDiv(xs[k], ys[k]))
  }

  /** The loop of the array/array forms: dst[i] = f(a[i], b[i]). */
  method ZipLoop(a: array<int>, ao: nat, b: array<int>, bo: nat, dst: array<int>, d: nat, size: nat, f: (int, int) -> int)
    requires ao + size <= a.Length && bo + size <= b.Length && d + size <= dst.Length
    requires a == dst ==> d <= ao
    requires b == dst ==> d <= bo
    modifies dst
    ensures forall p :: d <= p < d + size ==> dst[p] == f(old(a[ao + (p - d)]), old(b[bo + (p - d)]))
    ensures forall k :: 0 <= k < dst.Length && !(d <= k < d + size) ==> dst[k] == old(dst[k])
  {
    ghost var A, B := a[..], b[..];
    var i := 0;
    while i < size
      invariant 0 <= i <= size
      invariant forall p :: d <= p < d + i ==> dst[p] == f(A[ao + (p - d)], B[bo + (p - d)])
      invariant forall k :: 0 <= k < dst.Length && !(d <= k < d + i) ==> dst[k] == old(dst[k])
    {
      var x, y := a[ao + i], b[bo + i];
      assert x == A[ao + i] by {
        if a == dst { assert !(d <= ao + i < d + i); }
      }
      assert y == B[bo + i] by {
        if b == dst { assert !(d <= bo + i < d + i); }
      }
      dst[d + i] := f(x, y);
      i := i + 1;
    }
  }

  /** The array/array loop, with its result also stated as the pairwise combination of the two input runs. */
  method Zip(a: array<int>, ao: nat, b: array<int>, bo: nat, dst: array<int>, d: nat, size: nat, f: (int, int) -> int)
    requires ao + size <= a.Length && bo + size <= b.Length && d + size <= dst.Length
    requires a == dst ==> d <= ao
    requires b == dst ==> d <= bo
    modifies dst
    ensures forall p :: d <= p < d + size ==> dst[p] == f(old(a[ao + (p - d)]), old(b[bo + (p - d)]))
    ensures forall k :: 0 <= k < dst.Length && !(d <= k < d + size) ==> dst[k] == old(dst[k])
    ensures dst[d..d + size] == ZipWith(old(a[ao..ao + size]), old(b[bo..bo + size]), f)
  {
    ghost var A, B := a[..ao + size][ao..], b[..bo + size][bo..];
    assert A == old(a[ao..ao + size]) && B == old(b[bo..bo + size]);
    ZipLoop(a, ao, b, bo, dst, d, size, f);
    ghost var z := ZipWith(A, B, f);
    forall p | d <= p < d + size ensures dst[p] == z[p - d] {
      assert A[p - d] == old(a[ao + (p - d)]) && B[p - d] == old(b[bo + (p - d)]);
    }
    Window(dst[..], d, size, z);
  }

  /** The loop of the array/value forms: dst[i] = f(a[i], v). */
  method ZipValue(a: array<int>, ao: nat, v: int, dst: array<int>, d: nat, size: nat, f: (int, int) -> int)
    requires ao + size <= a.Length && d + size <= dst.Length
    requires a == dst ==> d <= ao
    modifies dst
    ensures forall p :: d <= p < d + size ==> dst[p] == f(old(a[ao + (p - d)]), v)
    ensures forall k :: 0 <= k < dst.Length && !(d <= k < d + size) ==> dst[k] == old(dst[k])
  {
    ghost var A := a[..];
    var i := 0;
    while i < size
      invariant 0 <= i <= size
      invariant forall p :: d <= p < d + i ==> dst[p] == f(A[ao + (p - d)], v)
      invariant forall k :: 0 <= k < dst.Length && !(d <= k < d + i) ==> dst[k] == old(dst[k])
      invariant forall p :: ao + i <= p < ao + size ==> a[p] == A[p]
    {
      dst[d + i] := f(a[ao + i], v);
      i := i + 1;
    }
  }

  /** The loop of the value/array forms: dst[i] = f(v, b[i]). */
  method ValueZip(v: int, b: array<int>, bo: nat, dst: array<int>, d: nat, size: nat, f: (int, int) -> int)
    requires bo + size <= b.Length && d + size <= dst.Length
    requires b == dst ==> d <= bo
    modifies dst
    ensures forall p :: d <= p < d + size ==> dst[p] == f(v, old(b[bo + (p - d)]))
    ensures forall k :: 0 <= k < dst.Length && !(d <= k < d + size) ==> dst[k] == old(dst[k])
  {
    ghost var B := b[..];
    var i := 0;
    while i < size
      invariant 0 <= i <= size
      invariant forall p :: d <= p < d + i ==> dst[p] == f(v, B[bo + (p - d)])
      invariant forall k :: 0 <= k < dst.Length && !(d <= k < d + i) ==> dst[k] == old(dst[k])
      invariant forall p :: bo + i <= p < bo + size ==> b[p] == B[p]
    {
      dst[d + i] := f(v, b[bo + i]);
      i := i + 1;
    }
  }

  /** vec_add(a, b, dst, size), both operands runs. */
  method VecAdd(a: array<int>, ao: nat, b: array<int>, bo: nat, dst: array<int>, d: nat, size: nat)
    requires ao + size <= a.Length && bo + size <= b.Length && d + size <= dst.Length
    requires a == dst ==> d <= ao
    requires b == dst ==> d <= bo
    modifies dst
    ensures forall k :: 0 <= k < dst.Length && !(d <= k < d + size) ==> dst[k] == old(dst[k])
    ensures dst[d..d + size] == ZipWith(old(a[ao..ao + size]), old(b[bo..bo + size]), Add)
  {
    Zip(a, ao, b, bo, dst, d, size, Add);
  }

  /** vec_add(a, b, dst, size) with a single right operand. */
  method VecAddValue(a: array<int>, ao: nat, v: int, dst: array<int>, d: nat, size: nat)
    requires ao + size <= a.Length && d + size <= dst.Length
    requires a == dst ==> d <= ao
    modifies dst
    ensures forall p :: d <= p < d + size ==> dst[p] == old(a[ao + (p - d)]) + v
    ensures forall k :: 0 <= k < dst.Length && !(d <= k < d + size) ==> dst[k] == old(dst[k])
  {
    ZipValue(a, ao, v, dst, d, size, Add);
  }

  /** vec_add(a, b, dst, size) with a single left operand. */
  method ValueVecAdd(v: int, b: array<int>, bo: nat, dst: array<int>, d: nat, size: nat)
    requires bo + size <= b.Length && d + size <= dst.Length
    requires b == dst ==> d <= bo
    modifies dst
    ensures forall p :: d <= p < d + size ==> dst[p] == v + old(b[bo + (p - d)])
    ensures forall k :: 0 <= k < dst.Length && !(d <= k < d + size) ==> dst[k] == old(dst[k])
  {
    ValueZip(v, b, bo, dst, d, size, Add);
  }

  /** vec_sub(a, b, dst, size), both operands runs. */
  method VecSub(a: array<int>, ao: nat, b: array<int>, bo: nat, dst: array<int>, d: nat, size: nat)
    requires ao + size <= a.Length && bo + size <= b.Length && d + size <= dst.Length
    requires a == dst ==> d <= ao
    requires b == dst ==> d <= bo
    modifies dst
    ensures forall k :: 0 <= k < dst.Length && !(d <= k < d + size) ==> dst[k] == old(dst[k])
    ensures dst[d..d + size] == ZipWith(old(a[ao..ao + size]), old(b[bo..bo + size]), Sub)
  {
    Zip(a, ao, b, bo, dst, d, size, Sub);
  }

  /** vec_sub(a, b, dst, size) with a single right operand. */
  method VecSubValue(a: array<int>, ao: nat, v: int, dst: array<int>, d: nat, size: nat)
    requires ao + size <= a.Length && d + size <= dst.Length
    requires a == dst ==> d <= ao
    modifies dst
    ensures forall p :: d <= p < d + size ==> dst[p] == old(a[ao + (p - d)]) - v
    ensures forall k :: 0 <= k < dst.Length && !(d <= k < d + size) ==> dst[k] == old(dst[k])
  {
    ZipValue(a, ao, v, dst, d, size, Sub);
  }

  /** vec_sub(a, b, dst, size) with a single left operand. */
  method ValueVecSub(v: int, b: array<int>, bo: nat, dst: array<int>, d: nat, size: nat)
    requires bo + size <= b.Length && d + size <= dst.Length
    requires b == dst ==> d <= bo
    modifies dst
    ensures forall p :: d <= p < d + size ==> dst[p] == v - old(b[bo + (p - d)])
    ensures forall k :: 0 <= k < dst.Length && !(d <= k < d + size) ==> dst[k] == old(dst[k])
  {
    ValueZip(v, b, bo, dst, d, size, Sub);
  }

  /** vec_mul(a, b, dst, size), both operands runs. */
  method VecMul(a: array<int>, ao: nat, b: array<int>, bo: nat, dst: array<int>, d: nat, size: nat)
    requires ao + size <= a.Length && bo + size <= b.Length && d + size <= dst.Length
    requires a == dst ==> d <= ao
    requires b == dst ==> d <= bo
    modifies dst
    ensures forall k :: 0 <= k < dst.Length && !(d <= k < d + size) ==> dst[k] == old(dst[k])
    ensures dst[d..d + size] == ZipWith(old(a[ao..ao + size]), old(b[bo..bo + size]), Mul)
  {
    Zip(a, ao, b, bo, dst, d, size, Mul);
  }

  /** vec_mul(a, b, dst, size) with a single right operand. */
  method VecMulValue(a: array<int>, ao: nat, v: int, dst: array<int>, d: nat, size: nat)
    requires ao + size <= a.Length && d + size <= dst.Length
    requires a == dst ==> d <= ao
    modifies dst
    ensures forall p :: d <= p < d + size ==> dst[p] == Mul(old(a[ao + (p - d)]), v)
    ensures forall k :: 0 <= k < dst.Length && !(d <= k < d + size) ==> dst[k] == old(dst[k])
  {
    ZipValue(a, ao, v, dst, d, size, Mul);
  }

  /**
   * vec_div(a, b, dst, size): C++ integer division, which truncates toward
   * zero; a zero divisor is undefined behaviour, so none may be zero.
   */
  method VecDiv(a: array<int>, ao: nat, b: array<int>, bo: nat, dst: array<int>, d: nat, size: nat)
    requires ao + size <= a.Length && bo + size <= b.Length && d + size <= dst.Length
    requires a == dst ==> d <= ao
    requires b == dst ==> d <= bo
    requires forall p :: bo <= p < bo + size ==> b[p] != 0
    modifies dst
    ensures forall k :: 0 <= k < dst.Length && !(d <= k < d + size) ==> dst[k] == old(dst[k])
    ensures dst[d..d + size] == Quotients(old(a[ao..ao + size]), old(b[bo..bo + size]))
  {
    ghost var A, B := a[..], b[..];
    Zip(a, ao, b, bo, dst, d, size, Quot);
    QuotientsAgree(A[ao..ao + size], B[bo..bo + size]);
  }

  /** The C++ quotient, extended by 0 to a zero divisor so that it is a total function. */
  function Quot(x: int, y: int): int
  {
    if y == 0 then 0 else TDiv(x, y)
  }

  /** Where no divisor is zero, the total quotient is the C++ quotient. */
  lemma QuotientsAgree(xs: seq<int>, ys: seq<int>)
    requires |xs| == |ys| && forall k :: 0 <= k < |ys| ==> ys[k] != 0
    ensures ZipWith(xs, ys, Quot) == Quotients(xs, ys)
  {
    var z, q := ZipWith(xs, ys, Quot), Quotients(xs, ys);
    forall k | 0 <= k < |xs| ensures z[k] == q[k] {
      assert ys[k] != 0;
    }
  }

  /** A window of a sequence that agrees position by position with t is t. */
  lemma Window(s: seq<int>, d: nat, size: nat, t: seq<int>)
    requires d + size <= |s| && |t| == size
    requires forall p :: d <= p < d + size ==> s[p] == t[p - d]
    ensures s[d..d + size] == t
  {
    var w := s[d..d + size];
    forall k | 0 <= k < size ensures w[k] == t[k] {
      assert w[k] == s[d + k];
    }
  }
}
