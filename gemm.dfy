// The blocked matrix-multiply kernel gemm(a, b, dst, M, K, N, step_a,
// step_b, step_dst). It walks tiles of BS rows, BS inner indices and BS
// columns, copies a tile of a and one of b into local square buffers,
// accumulates their product in a zeroed local buffer and adds each entry
// to dst, clearing it again. Element (r, k) of a is at a0 + r*step_a + k,
// element (k, c) of b at b0 + k*step_b + c, and the product entry (r, c)
// is added to position d0 + r*step_dst + c of dst. Whatever the tile size,
// each position of dst ends up increased by the sum of the product
// entries added to it; when step_dst is at least N that is one entry per
// position.

module Gemm {
  import opened Shape

  /** The three element runs of gemm with their first positions and row strides. */
  datatype Operands = Operands(a: seq<int>, a0: nat, sa: nat, b: seq<int>, b0: nat, sb: nat, d0: nat, sd: nat)

  /** The first positions and row strides of one call, as the kernel holds them. */
  datatype Steps = Steps(a0: nat, sa: nat, b0: nat, sb: nat, d0: nat, sd: nat)

  /** The operands g describe the call with positions and strides s. */
  predicate Describes(g: Operands, s: Steps)
  {
    g.a0 == s.a0 && g.sa == s.sa && g.b0 == s.b0 && g.sb == s.sb && g.d0 == s.d0 && g.sd == s.sd
  }

  /** The element of s at i, and 0 outside s. */
  function Get(s: seq<int>, i: int): int
  {
    if 0 <= i < |s| then s[i] else 0
  }

  /** Element (r, k) of the left operand. */
  function A(g: Operands, r: nat, k: nat): int
  {
    Get(g.a, g.a0 + r * g.sa + k)
  }

  /** Element (k, c) of the right operand. */
  function B(g: Operands, k: nat, c: nat): int
  {
    Get(g.b, g.b0 + k * g.sb + c)
  }

  /** The position of dst that receives product entry (r, c). */
  function Addr(g: Operands, r: nat, c: nat): nat
  {
    g.d0 + r * g.sd + c
  }

  function Min(x: int, y: int): int
  {
    if x < y then x else y
  }

  /** The sum over k0 <= k < k1 of A(r, k) * B(k, c). */
  function Prod(g: Operands, r: nat, c: nat, k0: nat, k1: nat): int
    decreases k1
  {
    if k1 <= k0 then 0 else Prod(g, r, c, k0, k1 - 1) + A(g, r, k1 - 1) * B(g, k1 - 1, c)
  }

  /** The part of row r, columns c0 <= c < c1, of the product that lands at position q of dst. */
  function RowPart(g: Operands, q: int, r: nat, c0: nat, c1: nat, k0: nat, k1: nat): int
    decreases c1
  {
    if c1 <= c0 then 0
    else RowPart(g, q, r, c0, c1 - 1, k0, k1) + (if Addr(g, r, c1 - 1) == q then Prod(g, r, c1 - 1, k0, k1) else 0)
  }

  /** The part of rows r0 <= r < r1, columns c0 <= c < c1, inner indices k0 <= k < k1 that lands at q. */
  function Block(g: Operands, q: int, r0: nat, r1: nat, c0: nat, c1: nat, k0: nat, k1: nat): int
    decreases r1
  {
    if r1 <= r0 then 0 else Block(g, q, r0, r1 - 1, c0, c1, k0, k1) + RowPart(g, q, r1 - 1, c0, c1, k0, k1)
  }

  // ---- Splitting the sums ----

  lemma {:induction false} ProdSplit(g: Operands, r: nat, c: nat, k0: nat, k1: nat, k2: nat)
    requires k0 <= k1 <= k2
    ensures Prod(g, r, c, k0, k1) + Prod(g, r, c, k1, k2) == Prod(g, r, c, k0, k2)
    decreases k2
  {
    if k2 > k1 {
      ProdSplit(g, r, c, k0, k1, k2 - 1);
    }
  }

  lemma {:induction false} RowPartSplitK(g: Operands, q: int, r: nat, c0: nat, c1: nat, k0: nat, k1: nat, k2: nat)
    requires k0 <= k1 <= k2
    ensures RowPart(g, q, r, c0, c1, k0, k1) + RowPart(g, q, r, c0, c1, k1, k2) == RowPart(g, q, r, c0, c1, k0, k2)
    decreases c1
  {
    if c1 > c0 {
      RowPartSplitK(g, q, r, c0, c1 - 1, k0, k1, k2);
      ProdSplit(g, r, c1 - 1, k0, k1, k2);
    }
  }

  /** Splitting the inner range splits every block sum. */
  lemma {:induction false} BlockSplitK(g: Operands, q: int, r0: nat, r1: nat, c0: nat, c1: nat, k0: nat, k1: nat, k2: nat)
    requires k0 <= k1 <= k2
    ensures Block(g, q, r0, r1, c0, c1, k0, k1) + Block(g, q, r0, r1, c0, c1, k1, k2) == Block(g, q, r0, r1, c0, c1, k0, k2)
    decreases r1
  {
    if r1 > r0 {
      BlockSplitK(g, q, r0, r1 - 1, c0, c1, k0, k1, k2);
      RowPartSplitK(g, q, r1 - 1, c0, c1, k0, k1, k2);
    }
  }

  lemma {:induction false} RowPartSplitC(g: Operands, q: int, r: nat, c0: nat, c1: nat, c2: nat, k0: nat, k1: nat)
    requires c0 <= c1 <= c2
    ensures RowPart(g, q, r, c0, c1, k0, k1) + RowPart(g, q, r, c1, c2, k0, k1) == RowPart(g, q, r, c0, c2, k0, k1)
    decreases c2
  {
    if c2 > c1 {
      RowPartSplitC(g, q, r, c0, c1, c2 - 1, k0, k1);
    }
  }

  /** Splitting the column range splits every block sum. */
  lemma {:induction false} BlockSplitC(g: Operands, q: int, r0: nat, r1: nat, c0: nat, c1: nat, c2: nat, k0: nat, k1: nat)
    requires c0 <= c1 <= c2
    ensures Block(g, q, r0, r1, c0, c1, k0, k1) + Block(g, q, r0, r1, c1, c2, k0, k1) == Block(g, q, r0, r1, c0, c2, k0, k1)
    decreases r1
  {
    if r1 > r0 {
      BlockSplitC(g, q, r0, r1 - 1, c0, c1, c2, k0, k1);
      RowPartSplitC(g, q, r1 - 1, c0, c1, c2, k0, k1);
    }
  }

  /** Splitting the row range splits every block sum. */
  lemma {:induction false} BlockSplitR(g: Operands, q: int, r0: nat, r1: nat, r2: nat, c0: nat, c1: nat, k0: nat, k1: nat)
    requires r0 <= r1 <= r2
    ensures Block(g, q, r0, r1, c0, c1, k0, k1) + Block(g, q, r1, r2, c0, c1, k0, k1) == Block(g, q, r0, r2, c0, c1, k0, k1)
    decreases r2
  {
    if r2 > r1 {
      BlockSplitR(g, q, r0, r1, r2 - 1, c0, c1, k0, k1);
    }
  }

  /** An empty inner range contributes nothing. */
  lemma {:induction false} BlockNoInner(g: Operands, q: int, r0: nat, r1: nat, c0: nat, c1: nat, k: nat)
    ensures Block(g, q, r0, r1, c0, c1, k, k) == 0
    decreases r1
  {
    if r1 > r0 {
      BlockNoInner(g, q, r0, r1 - 1, c0, c1, k);
      RowPartNoInner(g, q, r1 - 1, c0, c1, k);
    }
  }

  lemma {:induction false} RowPartNoInner(g: Operands, q: int, r: nat, c0: nat, c1: nat, k: nat)
    ensures RowPart(g, q, r, c0, c1, k, k) == 0
    decreases c1
  {
    if c1 > c0 {
      RowPartNoInner(g, q, r, c0, c1 - 1, k);
    }
  }

  /** An empty column range contributes nothing. */
  lemma {:induction false} BlockNoColumns(g: Operands, q: int, r0: nat, r1: nat, c: nat, k0: nat, k1: nat)
    ensures Block(g, q, r0, r1, c, c, k0, k1) == 0
    decreases r1
  {
    if r1 > r0 {
      BlockNoColumns(g, q, r0, r1 - 1, c, k0, k1);
    }
  }

  // ---- Where each product entry lands ----

  /** A row none of whose entries lands at q contributes nothing there. */
  lemma {:induction false} RowPartMiss(g: Operands, q: int, r: nat, c0: nat, c1: nat, k0: nat, k1: nat)
    requires forall c :: c0 <= c < c1 ==> Addr(g, r, c) != q
    ensures RowPart(g, q, r, c0, c1, k0, k1) == 0
    decreases c1
  {
    if c1 > c0 {
      RowPartMiss(g, q, r, c0, c1 - 1, k0, k1);
    }
  }

  /** Within one row, entry (r, c) is the only one that lands at its own position. */
  lemma {:induction false} RowPartHit(g: Operands, r: nat, c: nat, c0: nat, c1: nat, k0: nat, k1: nat)
    requires c0 <= c < c1
    ensures RowPart(g, Addr(g, r, c), r, c0, c1, k0, k1) == Prod(g, r, c, k0, k1)
    decreases c1
  {
    if c1 - 1 == c {
      RowPartMiss(g, Addr(g, r, c), r, c0, c, k0, k1);
    } else {
      RowPartHit(g, r, c, c0, c1 - 1, k0, k1);
    }
  }

  /** With a destination stride of at least c1, rows other than r have no entry at position (r, c). */
  lemma {:induction false} BlockMiss(g: Operands, r: nat, c: nat, r0: nat, r1: nat, c1: nat, k0: nat, k1: nat)
    requires c < c1 <= g.sd && (r < r0 || r1 <= r)
    ensures Block(g, Addr(g, r, c), r0, r1, 0, c1, k0, k1) == 0
    decreases r1
  {
    if r1 > r0 {
      BlockMiss(g, r, c, r0, r1 - 1, c1, k0, k1);
      var last := r1 - 1;
      forall c' | 0 <= c' < c1 ensures Addr(g, last, c') != Addr(g, r, c) {
        if Addr(g, last, c') == Addr(g, r, c) {
          DivModOf(last, g.sd, c');
          DivModOf(r, g.sd, c);
        }
      }
      RowPartMiss(g, Addr(g, r, c), r1 - 1, 0, c1, k0, k1);
    }
  }

  /**
   * With a destination stride of at least N, the position of product
   * entry (r, c) receives exactly that entry: no two entries share a
   * position.
   */
  lemma {:induction false} BlockHit(g: Operands, r: nat, c: nat, r1: nat, N: nat, k0: nat, k1: nat)
    requires r < r1 && c < N <= g.sd
    ensures Block(g, Addr(g, r, c), 0, r1, 0, N, k0, k1) == Prod(g, r, c, k0, k1)
    decreases r1
  {
    if r1 - 1 == r {
      BlockMiss(g, r, c, 0, r, N, k0, k1);
      RowPartHit(g, r, c, 0, N, k0, k1);
    } else {
      BlockHit(g, r, c, r1 - 1, N, k0, k1);
      BlockMiss(g, r, c, r1 - 1, r1, N, k0, k1);
    }
  }

  /** Operands that agree on every element read give the same sums. */
  lemma {:induction false} ProdAgree(g: Operands, h: Operands, r: nat, c: nat, k0: nat, k1: nat)
    requires forall k :: k0 <= k < k1 ==> A(g, r, k) == A(h, r, k) && B(g, k, c) == B(h, k, c)
    ensures Prod(g, r, c, k0, k1) == Prod(h, r, c, k0, k1)
    decreases k1
  {
    if k1 > k0 {
      ProdAgree(g, h, r, c, k0, k1 - 1);
    }
  }

  lemma {:induction false} RowPartAgree(g: Operands, h: Operands, q: int, r: nat, c1: nat, K: nat)
    requires g.d0 == h.d0 && g.sd == h.sd
    requires forall k :: 0 <= k < K ==> A(g, r, k) == A(h, r, k)
    requires forall k, c :: 0 <= k < K && 0 <= c < c1 ==> B(g, k, c) == B(h, k, c)
    ensures RowPart(g, q, r, 0, c1, 0, K) == RowPart(h, q, r, 0, c1, 0, K)
    decreases c1
  {
    if c1 > 0 {
      RowPartAgree(g, h, q, r, c1 - 1, K);
      ProdAgree(g, h, r, c1 - 1, 0, K);
    }
  }

  /** Operands that agree on every element of the M x K and K x N operands give the same result. */
  lemma {:induction false} BlockAgree(g: Operands, h: Operands, q: int, M: nat, K: nat, N: nat)
    requires g.d0 == h.d0 && g.sd == h.sd
    requires forall r, k :: 0 <= r < M && 0 <= k < K ==> A(g, r, k) == A(h, r, k)
    requires forall k, c :: 0 <= k < K && 0 <= c < N ==> B(g, k, c) == B(h, k, c)
    ensures Block(g, q, 0, M, 0, N, 0, K) == Block(h, q, 0, M, 0, N, 0, K)
    decreases M
  {
    if M > 0 {
      BlockAgree(g, h, q, M - 1, K, N);
      RowPartAgree(g, h, q, M - 1, N, K);
    }
  }

  // ---- The reference product ----

  /** The sum over k' < k of x[r*K + k'] * y[k'*N + c]: entry (r, c) of the row-major product, inner indices below k. */
  function Entry(x: seq<int>, y: seq<int>, K: nat, N: nat, r: nat, c: nat, k: nat): int
    decreases k
  {
    if k == 0 then 0 else Entry(x, y, K, N, r, c, k - 1) + Get(x, r * K + k - 1) * Get(y, (k - 1) * N + c)
  }

  /** The row-major M x N product of the row-major M x K matrix x and K x N matrix y. */
  function MatProduct(x: seq<int>, y: seq<int>, M: nat, K: nat, N: nat): (p: seq<int>)
    ensures |p| == M * N
  {
    seq(M * N, q requires 0 <= q < M * N => Entry(x, y, K, N, q / N, q % N, K))
  }

  /** The operands of a product of row-major element sequences written to dst with stride sd. */
  function RowMajor(x: seq<int>, y: seq<int>, K: nat, N: nat, sd: nat): Operands
  {
    Operands(x, 0, K, y, 0, N, 0, sd)
  }

  /** On row-major operands the kernel's sums are the entries of the product. */
  lemma {:induction false} ProdIsEntry(x: seq<int>, y: seq<int>, K: nat, N: nat, sd: nat, r: nat, c: nat, k: nat)
    ensures Prod(RowMajor(x, y, K, N, sd), r, c, 0, k) == Entry(x, y, K, N, r, c, k)
    decreases k
  {
    if k > 0 {
      ProdIsEntry(x, y, K, N, sd, r, c, k - 1);
    }
  }

  /**
   * With destination stride N (the corrected call), every position
   * q < M*N of dst receives entry q of the product.
   */
  lemma ProductCell(x: seq<int>, y: seq<int>, M: nat, K: nat, N: nat, q: nat)
    requires q < M * N
    ensures Block(RowMajor(x, y, K, N, N), q, 0, M, 0, N, 0, K) == MatProduct(x, y, M, K, N)[q]
  {
    var r, c := q / N, q % N;
    assert q == r * N + c;
    assert r < M by {
      if r >= M {
        MulLe(M, r, N);
      }
    }
    BlockHit(RowMajor(x, y, K, N, N), r, c, M, N, 0, K);
    ProdIsEntry(x, y, K, N, N, r, c, K);
  }

  /** A sequence whose every element is the kernel's sum on row-major operands is the product. */
  lemma ProductWhole(es: seq<int>, x: seq<int>, y: seq<int>, M: nat, K: nat, N: nat)
    requires |es| == M * N
    requires forall q :: 0 <= q < M * N ==> es[q] == Block(RowMajor(x, y, K, N, N), q, 0, M, 0, N, 0, K)
    ensures es == MatProduct(x, y, M, K, N)
  {
    forall q | 0 <= q < M * N ensures es[q] == MatProduct(x, y, M, K, N)[q] {
      ProductCell(x, y, M, K, N, q);
    }
  }

  /** Row 0 lands at the same positions whatever the destination stride. */
  lemma {:induction false} FirstRowAnyStride(g: Operands, sd: nat, q: int, c1: nat, K: nat)
    ensures RowPart(g, q, 0, 0, c1, 0, K) == RowPart(g.(sd := sd), q, 0, 0, c1, 0, K)
    decreases c1
  {
    if c1 > 0 {
      FirstRowAnyStride(g, sd, q, c1 - 1, K);
      ProdAgree(g, g.(sd := sd), 0, c1 - 1, 0, K);
    }
  }

  /**
   * With destination stride 1 (the call as written) the result agrees with
   * the corrected one when either the left operand has one row or the right
   * operand has one column: matrix-vector and vector-matrix products are
   * unaffected.
   */
  lemma {:induction false} StrideOneOnVectors(x: seq<int>, y: seq<int>, M: nat, K: nat, N: nat, q: int)
    requires M == 1 || N == 1
    ensures Block(RowMajor(x, y, K, N, 1), q, 0, M, 0, N, 0, K) == Block(RowMajor(x, y, K, N, N), q, 0, M, 0, N, 0, K)
  {
    if N != 1 {
      FirstRowAnyStride(RowMajor(x, y, K, N, 1), N, q, N, K);
    }
  }

  /**
   * For a row or a column result the stride-1 tile sums, cell by cell, are
   * the matrix product, so the rank-1 products are as intended.
   */
  lemma VectorProductAsWritten(es: seq<int>, x: seq<int>, y: seq<int>, M: nat, K: nat, N: nat)
    requires M == 1 || N == 1
    requires |es| == M * N
    requires forall q :: 0 <= q < M * N ==> es[q] == Block(RowMajor(x, y, K, N, 1), q, 0, M, 0, N, 0, K)
    ensures es == MatProduct(x, y, M, K, N)
  {
    forall q | 0 <= q < M * N ensures es[q] == Block(RowMajor(x, y, K, N, N), q, 0, M, 0, N, 0, K) {
      StrideOneOnVectors(x, y, M, K, N, q);
    }
    ProductWhole(es, x, y, M, K, N);
  }

  /**
   * With destination stride 1, a 2 x 3 by 3 x 2 product leaves position 3
   * of dst (entry (1, 1)) untouched, where the product has 38: entry (r, c)
   * is added at r + c, so (0, 1) and (1, 0) share position 1, and no entry
   * lands at position 3.
   */
  lemma StrideOneMissesEntry()
    ensures Block(RowMajor([1, 1, 4, 5, 1, 4], [1, 2, 3, 4, 5, 6], 3, 2, 1), 3, 0, 2, 0, 2, 0, 3) == 0
    ensures MatProduct([1, 1, 4, 5, 1, 4], [1, 2, 3, 4, 5, 6], 2, 3, 2)[3] == 38
  {
    StrideOneSkipsThree([1, 1, 4, 5, 1, 4], [1, 2, 3, 4, 5, 6]);
    EntryOneOne();
  }

  /** Entry (1, 1) of the sample product is 5*2 + 1*4 + 4*6. */
  lemma EntryOneOne()
    ensures MatProduct([1, 1, 4, 5, 1, 4], [1, 2, 3, 4, 5, 6], 2, 3, 2)[3] == 38
  {
    var x, y := [1, 1, 4, 5, 1, 4], [1, 2, 3, 4, 5, 6];
    assert Entry(x, y, 3, 2, 1, 1, 1) == 10 by {
      assert Get(x, 3) == 5 && Get(y, 1) == 2;
    }
    assert Entry(x, y, 3, 2, 1, 1, 2) == 14 by {
      assert Get(x, 4) == 1 && Get(y, 3) == 4;
    }
    assert Entry(x, y, 3, 2, 1, 1, 3) == 38 by {
      assert Get(x, 5) == 4 && Get(y, 5) == 6;
    }
  }

  /** With stride 1 no entry of a 2 x 2 product lands at position 3. */
  lemma StrideOneSkipsThree(x: seq<int>, y: seq<int>)
    ensures Block(RowMajor(x, y, 3, 2, 1), 3, 0, 2, 0, 2, 0, 3) == 0
  {
    var g := RowMajor(x, y, 3, 2, 1);
    RowPartMiss(g, 3, 0, 0, 2, 0, 3);
    RowPartMiss(g, 3, 1, 0, 2, 0, 3);
    assert Block(g, 3, 0, 1, 0, 2, 0, 3) == Block(g, 3, 0, 0, 0, 2, 0, 3) + RowPart(g, 3, 0, 0, 2, 0, 3);
  }

  // ---- The kernel ----

  /**
   * gemm(a + a0, b + b0, dst + d0, M, K, N, sa, sb, sd) with tiles of bs:
   * every position q of dst is increased by the sum of the product entries
   * that land at q, whatever bs is.
   */
  method Gemm(a: array<int>, a0: nat, b: array<int>, b0: nat, dst: array<int>, d0: nat,
              M: nat, K: nat, N: nat, sa: nat, sb: nat, sd: nat, bs: nat)
    requires bs > 0 && dst != a && dst != b
    requires M == 0 || K == 0 || a0 + (M - 1) * sa + K <= a.Length
    requires K == 0 || N == 0 || b0 + (K - 1) * sb + N <= b.Length
    requires M == 0 || N == 0 || d0 + (M - 1) * sd + N <= dst.Length
    modifies dst
    ensures forall q :: 0 <= q < dst.Length ==>
              dst[q] == old(dst[q]) + Block(Operands(a[..], a0, sa, b[..], b0, sb, d0, sd), q, 0, M, 0, N, 0, K)
  {
    var s := Steps(a0, sa, b0, sb, d0, sd);
    ghost var g := Operands(a[..], a0, sa, b[..], b0, sb, d0, sd);
    ghost var D := dst[..];
    var aBuf := new int[bs, bs];
    var bBuf := new int[bs, bs];
    var resBuf := new int[bs, bs]((i, j) => 0);
    var bi := 0;
    while bi < M
      invariant forall q :: 0 <= q < dst.Length ==> dst[q] == D[q] + Block(g, q, 0, Min(bi, M), 0, N, 0, K)
      invariant forall i, j :: 0 <= i < bs && 0 <= j < bs ==> resBuf[i, j] == 0
      decreases M - bi
    {
      var li := Min(M - bi, bs);
      MulLe(bi + li - 1, M - 1, sa);
      MulLe(bi + li - 1, M - 1, sd);
      RowTile(a, b, dst, aBuf, bBuf, resBuf, s, g, K, N, bi, li);
      forall q | 0 <= q < dst.Length
        ensures dst[q] == D[q] + Block(g, q, 0, Min(bi + bs, M), 0, N, 0, K)
      {
        BlockSplitR(g, q, 0, bi, bi + li, 0, N, 0, K);
      }
      bi := bi + bs;
    }
  }

  /** The bi loop body: rows bi .. bi + li - 1 of the product, over every inner tile. */
  method RowTile(a: array<int>, b: array<int>, dst: array<int>, aBuf: array2<int>, bBuf: array2<int>,
                 resBuf: array2<int>, s: Steps, ghost g: Operands, K: nat, N: nat, bi: nat, li: nat)
    requires Describes(g, s)
    requires dst != a && dst != b && aBuf != bBuf && aBuf != resBuf && bBuf != resBuf
    requires g.a == a[..] && g.b == b[..] && 0 < li <= aBuf.Length0
    requires aBuf.Length0 == aBuf.Length1 == bBuf.Length0 == bBuf.Length1 == resBuf.Length0 == resBuf.Length1
    requires K == 0 || g.a0 + (bi + li - 1) * g.sa + K <= a.Length
    requires K == 0 || N == 0 || g.b0 + (K - 1) * g.sb + N <= b.Length
    requires N == 0 || g.d0 + (bi + li - 1) * g.sd + N <= dst.Length
    requires forall i, j :: 0 <= i < resBuf.Length0 && 0 <= j < resBuf.Length1 ==> resBuf[i, j] == 0
    modifies dst, aBuf, bBuf, resBuf
    ensures forall i, j :: 0 <= i < resBuf.Length0 && 0 <= j < resBuf.Length1 ==> resBuf[i, j] == 0
    ensures forall q :: 0 <= q < dst.Length ==> dst[q] == old(dst[q]) + Block(g, q, bi, bi + li, 0, N, 0, K)
  {
    var bs := aBuf.Length0;
    ghost var D := dst[..];
    ghost var hi := bi + li;
    forall q | 0 <= q < dst.Length ensures Block(g, q, bi, hi, 0, N, 0, 0) == 0 {
      BlockNoInner(g, q, bi, bi + li, 0, N, 0);
    }
    var bk := 0;
    while bk < K
      invariant forall q :: 0 <= q < dst.Length ==> dst[q] == D[q] + Block(g, q, bi, bi + li, 0, N, 0, Min(bk, K))
      invariant forall i, j :: 0 <= i < bs && 0 <= j < bs ==> resBuf[i, j] == 0
      decreases K - bk
    {
      KTile(a, b, dst, aBuf, bBuf, resBuf, s, g, K, N, bi, li, bk, D);
      bk := bk + bs;
    }
  }

  /** The bk loop body: the inner tile bk .. of rows bi .. bi + li - 1, over every column tile. */
  method KTile(a: array<int>, b: array<int>, dst: array<int>, aBuf: array2<int>, bBuf: array2<int>,
               resBuf: array2<int>, s: Steps, ghost g: Operands, K: nat, N: nat, bi: nat, li: nat, bk: nat,
               ghost D: seq<int>)
    requires Describes(g, s)
    requires dst != a && dst != b && aBuf != bBuf && aBuf != resBuf && bBuf != resBuf
    requires g.a == a[..] && g.b == b[..] && 0 < li <= aBuf.Length0 && bk < K
    requires aBuf.Length0 == aBuf.Length1 == bBuf.Length0 == bBuf.Length1 == resBuf.Length0 == resBuf.Length1
    requires g.a0 + (bi + li - 1) * g.sa + K <= a.Length
    requires N == 0 || g.b0 + (K - 1) * g.sb + N <= b.Length
    requires N == 0 || g.d0 + (bi + li - 1) * g.sd + N <= dst.Length
    requires forall i, j :: 0 <= i < resBuf.Length0 && 0 <= j < resBuf.Length1 ==> resBuf[i, j] == 0
    requires |D| == dst.Length && forall q :: 0 <= q < dst.Length ==> dst[q] == D[q] + Block(g, q, bi, bi + li, 0, N, 0, bk)
    modifies dst, aBuf, bBuf, resBuf
    ensures forall i, j :: 0 <= i < resBuf.Length0 && 0 <= j < resBuf.Length1 ==> resBuf[i, j] == 0
    ensures forall q :: 0 <= q < dst.Length ==> dst[q] == D[q] + Block(g, q, bi, bi + li, 0, N, 0, Min(bk + aBuf.Length0, K))
  {
    var lk := Min(K - bk, aBuf.Length0);
    CopyA(a, aBuf, s, g, bi, li, bk, lk);
    ColTiles(a, b, dst, aBuf, bBuf, resBuf, s, g, N, bi, li, bk, lk);
    forall q | 0 <= q < dst.Length
      ensures dst[q] == D[q] + Block(g, q, bi, bi + li, 0, N, 0, Min(bk + aBuf.Length0, K))
    {
      BlockSplitK(g, q, bi, bi + li, 0, N, 0, bk, bk + lk);
    }
  }

  /** Copies the tile of a at rows bi .., inner indices bk .. into a_buf. */
  method CopyA(a: array<int>, aBuf: array2<int>, s: Steps, ghost g: Operands, bi: nat, li: nat, bk: nat, lk: nat)
    requires Describes(g, s)
    requires g.a == a[..] && li <= aBuf.Length0 && lk <= aBuf.Length1
    requires li == 0 || lk == 0 || g.a0 + (bi + li - 1) * g.sa + bk + lk <= a.Length
    modifies aBuf
    ensures forall i, k :: 0 <= i < li && 0 <= k < lk ==> aBuf[i, k] == A(g, i + bi, bk + k)
  {
    var i := 0;
    while i < li
      invariant 0 <= i <= li
      invariant forall i', k :: 0 <= i' < i && 0 <= k < lk ==> aBuf[i', k] == A(g, i' + bi, bk + k)
    {
      MulLe(i + bi, bi + li - 1, g.sa);
      CopyARow(a, aBuf, s, g, bi, i, bk, lk);
      i := i + 1;
    }
  }

  /** One row of the a tile: ptr = a + (i + bi) * step_a + bk, a_buf[i][k] = ptr[k]. */
  method CopyARow(a: array<int>, aBuf: array2<int>, s: Steps, ghost g: Operands, bi: nat, i: nat, bk: nat, lk: nat)
    requires Describes(g, s)
    requires g.a == a[..] && i < aBuf.Length0 && lk <= aBuf.Length1
    requires lk == 0 || g.a0 + (i + bi) * g.sa + bk + lk <= a.Length
    modifies aBuf
    ensures forall k :: 0 <= k < lk ==> aBuf[i, k] == A(g, i + bi, bk + k)
    ensures forall i', k :: 0 <= i' < aBuf.Length0 && 0 <= k < aBuf.Length1 && i' != i ==> aBuf[i', k] == old(aBuf[i', k])
  {
    var ptr := s.a0 + (i + bi) * s.sa + bk;
    var k := 0;
    while k < lk
      invariant 0 <= k <= lk
      invariant forall k' :: 0 <= k' < k ==> aBuf[i, k'] == A(g, i + bi, bk + k')
      invariant forall i', k' :: 0 <= i' < aBuf.Length0 && 0 <= k' < aBuf.Length1 && i' != i ==> aBuf[i', k'] == old(aBuf[i', k'])
    {
      aBuf[i, k] := a[ptr + k];
      k := k + 1;
    }
  }

  /** The bk loop body after the a tile: every column tile of rows bi .., inner indices bk ... */
  method ColTiles(a: array<int>, b: array<int>, dst: array<int>, aBuf: array2<int>, bBuf: array2<int>,
                  resBuf: array2<int>, s: Steps, ghost g: Operands, N: nat, bi: nat, li: nat, bk: nat, lk: nat)
    requires Describes(g, s)
    requires dst != a && dst != b && aBuf != bBuf && aBuf != resBuf && bBuf != resBuf
    requires g.b == b[..] && 0 < li <= aBuf.Length0 && 0 < lk <= aBuf.Length0
    requires aBuf.Length0 == aBuf.Length1 == bBuf.Length0 == bBuf.Length1 == resBuf.Length0 == resBuf.Length1
    requires N == 0 || g.b0 + (bk + lk - 1) * g.sb + N <= b.Length
    requires N == 0 || g.d0 + (bi + li - 1) * g.sd + N <= dst.Length
    requires forall i, k :: 0 <= i < li && 0 <= k < lk ==> aBuf[i, k] == A(g, i + bi, bk + k)
    requires forall i, j :: 0 <= i < resBuf.Length0 && 0 <= j < resBuf.Length1 ==> resBuf[i, j] == 0
    modifies dst, bBuf, resBuf
    ensures forall i, j :: 0 <= i < resBuf.Length0 && 0 <= j < resBuf.Length1 ==> resBuf[i, j] == 0
    ensures forall q :: 0 <= q < dst.Length ==> dst[q] == old(dst[q]) + Block(g, q, bi, bi + li, 0, N, bk, bk + lk)
  {
    var bs := aBuf.Length0;
    ghost var D := dst[..];
    ghost var hi, kh := bi + li, bk + lk;
    forall q | 0 <= q < dst.Length ensures Block(g, q, bi, hi, 0, 0, bk, kh) == 0 {
      BlockNoColumns(g, q, bi, bi + li, 0, bk, bk + lk);
    }
    var bj := 0;
    while bj < N
      invariant forall q :: 0 <= q < dst.Length ==> dst[q] == D[q] + Block(g, q, bi, bi + li, 0, Min(bj, N), bk, bk + lk)
      invariant forall i, j :: 0 <= i < bs && 0 <= j < bs ==> resBuf[i, j] == 0
      invariant forall i, k :: 0 <= i < li && 0 <= k < lk ==> aBuf[i, k] == A(g, i + bi, bk + k)
      decreases N - bj
    {
      var lj := Min(N - bj, bs);
      Tile(b, dst, aBuf, bBuf, resBuf, s, g, bi, li, bk, lk, bj, lj);
      forall q | 0 <= q < dst.Length
        ensures dst[q] == D[q] + Block(g, q, bi, bi + li, 0, Min(bj + bs, N), bk, bk + lk)
      {
        BlockSplitC(g, q, bi, bi + li, 0, bj, bj + lj, bk, bk + lk);
      }
      bj := bj + bs;
    }
  }

  /** The bj loop body: copy the b tile, multiply the tiles into res_buf, add res_buf to dst. */
  method Tile(b: array<int>, dst: array<int>, aBuf: array2<int>, bBuf: array2<int>, resBuf: array2<int>,
              s: Steps, ghost g: Operands, bi: nat, li: nat, bk: nat, lk: nat, bj: nat, lj: nat)
    requires Describes(g, s)
    requires dst != b && aBuf != bBuf && aBuf != resBuf && bBuf != resBuf
    requires g.b == b[..] && 0 < li <= aBuf.Length0 && 0 < lk <= aBuf.Length0 && 0 < lj <= aBuf.Length0
    requires aBuf.Length0 == aBuf.Length1 == bBuf.Length0 == bBuf.Length1 == resBuf.Length0 == resBuf.Length1
    requires g.b0 + (bk + lk - 1) * g.sb + bj + lj <= b.Length
    requires g.d0 + (bi + li - 1) * g.sd + bj + lj <= dst.Length
    requires forall i, k :: 0 <= i < li && 0 <= k < lk ==> aBuf[i, k] == A(g, i + bi, bk + k)
    requires forall i, j :: 0 <= i < resBuf.Length0 && 0 <= j < resBuf.Length1 ==> resBuf[i, j] == 0
    modifies dst, bBuf, resBuf
    ensures forall i, j :: 0 <= i < resBuf.Length0 && 0 <= j < resBuf.Length1 ==> resBuf[i, j] == 0
    ensures forall q :: 0 <= q < dst.Length ==> dst[q] == old(dst[q]) + Block(g, q, bi, bi + li, bj, bj + lj, bk, bk + lk)
  {
    CopyB(b, bBuf, s, g, bk, lk, bj, lj);
    Multiply(aBuf, bBuf, resBuf, g, bi, li, bk, lk, bj, lj);
    Flush(dst, resBuf, s, g, bi, li, bk, lk, bj, lj);
  }

  /** Copies the tile of b at inner indices bk .., columns bj .. into b_buf. */
  method CopyB(b: array<int>, bBuf: array2<int>, s: Steps, ghost g: Operands, bk: nat, lk: nat, bj: nat, lj: nat)
    requires Describes(g, s)
    requires g.b == b[..] && lk <= bBuf.Length0 && lj <= bBuf.Length1
    requires lk == 0 || lj == 0 || g.b0 + (bk + lk - 1) * g.sb + bj + lj <= b.Length
    modifies bBuf
    ensures forall k, j :: 0 <= k < lk && 0 <= j < lj ==> bBuf[k, j] == B(g, k + bk, bj + j)
  {
    var k := 0;
    while k < lk
      invariant 0 <= k <= lk
      invariant forall k', j :: 0 <= k' < k && 0 <= j < lj ==> bBuf[k', j] == B(g, k' + bk, bj + j)
    {
      MulLe(k + bk, bk + lk - 1, g.sb);
      CopyBRow(b, bBuf, s, g, bk, k, bj, lj);
      k := k + 1;
    }
  }

  /** One row of the b tile: ptr = b + (k + bk) * step_b + bj, b_buf[k][j] = ptr[j]. */
  method CopyBRow(b: array<int>, bBuf: array2<int>, s: Steps, ghost g: Operands, bk: nat, k: nat, bj: nat, lj: nat)
    requires Describes(g, s)
    requires g.b == b[..] && k < bBuf.Length0 && lj <= bBuf.Length1
    requires lj == 0 || g.b0 + (k + bk) * g.sb + bj + lj <= b.Length
    modifies bBuf
    ensures forall j :: 0 <= j < lj ==> bBuf[k, j] == B(g, k + bk, bj + j)
    ensures forall k', j :: 0 <= k' < bBuf.Length0 && 0 <= j < bBuf.Length1 && k' != k ==> bBuf[k', j] == old(bBuf[k', j])
  {
    var ptr := s.b0 + (k + bk) * s.sb + bj;
    var j := 0;
    while j < lj
      invariant 0 <= j <= lj
      invariant forall j' :: 0 <= j' < j ==> bBuf[k, j'] == B(g, k + bk, bj + j')
      invariant forall k', j' :: 0 <= k' < bBuf.Length0 && 0 <= j' < bBuf.Length1 && k' != k ==> bBuf[k', j'] == old(bBuf[k', j'])
    {
      bBuf[k, j] := b[ptr + j];
      j := j + 1;
    }
  }

  /**
   * res_buf[i][j] += a_buf[i][k] * b_buf[k][j] for i < li, k < lk, j < lj,
   * from a zeroed res_buf: entry (i, j) becomes product entry
   * (i + bi, bj + j) over the inner tile; the rest stays zero.
   */
  method Multiply(aBuf: array2<int>, bBuf: array2<int>, resBuf: array2<int>, ghost g: Operands,
                  bi: nat, li: nat, bk: nat, lk: nat, bj: nat, lj: nat)
    requires resBuf != aBuf && resBuf != bBuf
    requires li <= aBuf.Length0 && lk <= aBuf.Length1 && lk <= bBuf.Length0 && lj <= bBuf.Length1
    requires li <= resBuf.Length0 && lj <= resBuf.Length1
    requires forall i, k :: 0 <= i < li && 0 <= k < lk ==> aBuf[i, k] == A(g, i + bi, bk + k)
    requires forall k, j :: 0 <= k < lk && 0 <= j < lj ==> bBuf[k, j] == B(g, k + bk, bj + j)
    requires forall i, j :: 0 <= i < resBuf.Length0 && 0 <= j < resBuf.Length1 ==> resBuf[i, j] == 0
    modifies resBuf
    ensures forall i, j :: 0 <= i < resBuf.Length0 && 0 <= j < resBuf.Length1 ==>
              resBuf[i, j] == if i < li && j < lj then Prod(g, i + bi, bj + j, bk, bk + lk) else 0
  {
    var i := 0;
    while i < li
      invariant 0 <= i <= li
      invariant forall i', j :: 0 <= i' < resBuf.Length0 && 0 <= j < resBuf.Length1 ==>
                  resBuf[i', j] == if i' < i && j < lj then Prod(g, i' + bi, bj + j, bk, bk + lk) else 0
    {
      MulRow(aBuf, bBuf, resBuf, g, bi, i, bk, lk, bj, lj);
      i := i + 1;
    }
  }

  /** The k loop of row i: entry (i, j) accumulates the whole inner tile. */
  method MulRow(aBuf: array2<int>, bBuf: array2<int>, resBuf: array2<int>, ghost g: Operands,
                bi: nat, i: nat, bk: nat, lk: nat, bj: nat, lj: nat)
    requires resBuf != aBuf && resBuf != bBuf
    requires i < aBuf.Length0 && lk <= aBuf.Length1 && lk <= bBuf.Length0 && lj <= bBuf.Length1
    requires i < resBuf.Length0 && lj <= resBuf.Length1
    requires forall k :: 0 <= k < lk ==> aBuf[i, k] == A(g, i + bi, bk + k)
    requires forall k, j :: 0 <= k < lk && 0 <= j < lj ==> bBuf[k, j] == B(g, k + bk, bj + j)
    requires forall j :: 0 <= j < lj ==> resBuf[i, j] == 0
    modifies resBuf
    ensures forall j :: 0 <= j < lj ==> resBuf[i, j] == Prod(g, i + bi, bj + j, bk, bk + lk)
    ensures forall i', j :: 0 <= i' < resBuf.Length0 && 0 <= j < resBuf.Length1 && (i' != i || j >= lj) ==>
              resBuf[i', j] == old(resBuf[i', j])
  {
    var k := 0;
    while k < lk
      invariant 0 <= k <= lk
      invariant forall j :: 0 <= j < lj ==> resBuf[i, j] == Prod(g, i + bi, bj + j, bk, bk + k)
      invariant forall i', j :: 0 <= i' < resBuf.Length0 && 0 <= j < resBuf.Length1 && (i' != i || j >= lj) ==>
                  resBuf[i', j] == old(resBuf[i', j])
    {
      MulAxpy(aBuf, bBuf, resBuf, g, bi, i, bk, k, bj, lj);
      k := k + 1;
    }
  }

  /** The j loop: res_buf[i][j] += a_buf[i][k] * b_buf[k][j], one more inner index for every column. */
  method MulAxpy(aBuf: array2<int>, bBuf: array2<int>, resBuf: array2<int>, ghost g: Operands,
                 bi: nat, i: nat, bk: nat, k: nat, bj: nat, lj: nat)
    requires resBuf != aBuf && resBuf != bBuf
    requires i < aBuf.Length0 && k < aBuf.Length1 && k < bBuf.Length0 && lj <= bBuf.Length1
    requires i < resBuf.Length0 && lj <= resBuf.Length1
    requires aBuf[i, k] == A(g, i + bi, bk + k)
    requires forall j :: 0 <= j < lj ==> bBuf[k, j] == B(g, k + bk, bj + j)
    requires forall j :: 0 <= j < lj ==> resBuf[i, j] == Prod(g, i + bi, bj + j, bk, bk + k)
    modifies resBuf
    ensures forall j :: 0 <= j < lj ==> resBuf[i, j] == Prod(g, i + bi, bj + j, bk, bk + k + 1)
    ensures forall i', j :: 0 <= i' < resBuf.Length0 && 0 <= j < resBuf.Length1 && (i' != i || j >= lj) ==>
              resBuf[i', j] == old(resBuf[i', j])
  {
    var j := 0;
    while j < lj
      invariant 0 <= j <= lj
      invariant forall j' :: 0 <= j' < j ==> resBuf[i, j'] == Prod(g, i + bi, bj + j', bk, bk + k + 1)
      invariant forall j' :: j <= j' < lj ==> resBuf[i, j'] == Prod(g, i + bi, bj + j', bk, bk + k)
      invariant forall i', j' :: 0 <= i' < resBuf.Length0 && 0 <= j' < resBuf.Length1 && (i' != i || j' >= lj) ==>
                  resBuf[i', j'] == old(resBuf[i', j'])
    {
      assert k + bk == bk + k;
      resBuf[i, j] := resBuf[i, j] + aBuf[i, k] * bBuf[k, j];
      j := j + 1;
    }
  }

  /**
   * ptr = dst + (i + bi) * step_dst + bj; ptr[j] += res_buf[i][j];
   * res_buf[i][j] = 0 for i < li, j < lj: dst receives the tile and
   * res_buf is zero again.
   */
  method Flush(dst: array<int>, resBuf: array2<int>, s: Steps, ghost g: Operands,
               bi: nat, li: nat, bk: nat, lk: nat, bj: nat, lj: nat)
    requires Describes(g, s)
    requires li <= resBuf.Length0 && lj <= resBuf.Length1 && li > 0
    requires g.d0 + (bi + li - 1) * g.sd + bj + lj <= dst.Length
    requires forall i, j :: 0 <= i < resBuf.Length0 && 0 <= j < resBuf.Length1 ==>
               resBuf[i, j] == if i < li && j < lj then Prod(g, i + bi, bj + j, bk, bk + lk) else 0
    modifies dst, resBuf
    ensures forall i, j :: 0 <= i < resBuf.Length0 && 0 <= j < resBuf.Length1 ==> resBuf[i, j] == 0
    ensures forall q :: 0 <= q < dst.Length ==> dst[q] == old(dst[q]) + Block(g, q, bi, bi + li, bj, bj + lj, bk, bk + lk)
  {
    ghost var D := dst[..];
    var i := 0;
    while i < li
      invariant 0 <= i <= li
      invariant forall i', j :: 0 <= i' < resBuf.Length0 && 0 <= j < resBuf.Length1 ==>
                  resBuf[i', j] == if i <= i' < li && j < lj then Prod(g, i' + bi, bj + j, bk, bk + lk) else 0
      invariant forall q :: 0 <= q < dst.Length ==> dst[q] == D[q] + Block(g, q, bi, bi + i, bj, bj + lj, bk, bk + lk)
    {
      MulLe(i + bi, bi + li - 1, g.sd);
      FlushRow(dst, resBuf, s, g, bi, i, bk, lk, bj, lj);
      i := i + 1;
    }
  }

  /** One row of the flush: row i + bi of the tile is added at its destination positions. */
  method FlushRow(dst: array<int>, resBuf: array2<int>, s: Steps, ghost g: Operands,
                  bi: nat, i: nat, bk: nat, lk: nat, bj: nat, lj: nat)
    requires Describes(g, s)
    requires i < resBuf.Length0 && lj <= resBuf.Length1
    requires g.d0 + (i + bi) * g.sd + bj + lj <= dst.Length
    requires forall j :: 0 <= j < lj ==> resBuf[i, j] == Prod(g, i + bi, bj + j, bk, bk + lk)
    modifies dst, resBuf
    ensures forall j :: 0 <= j < lj ==> resBuf[i, j] == 0
    ensures forall i', j :: 0 <= i' < resBuf.Length0 && 0 <= j < resBuf.Length1 && (i' != i || j >= lj) ==>
              resBuf[i', j] == old(resBuf[i', j])
    ensures forall q :: 0 <= q < dst.Length ==> dst[q] == old(dst[q]) + RowPart(g, q, i + bi, bj, bj + lj, bk, bk + lk)
  {
    ghost var D := dst[..];
    var ptr := s.d0 + (i + bi) * s.sd + bj;
    var j := 0;
    while j < lj
      invariant 0 <= j <= lj
      invariant forall j' :: 0 <= j' < j ==> resBuf[i, j'] == 0
      invariant forall j' :: j <= j' < lj ==> resBuf[i, j'] == Prod(g, i + bi, bj + j', bk, bk + lk)
      invariant forall i', j' :: 0 <= i' < resBuf.Length0 && 0 <= j' < resBuf.Length1 && (i' != i || j' >= lj) ==>
                  resBuf[i', j'] == old(resBuf[i', j'])
      invariant forall q :: 0 <= q < dst.Length ==> dst[q] == D[q] + RowPart(g, q, i + bi, bj, bj + j, bk, bk + lk)
    {
      assert Addr(g, i + bi, bj + j) == ptr + j;
      dst[ptr + j] := dst[ptr + j] + resBuf[i, j];
      resBuf[i, j] := 0;
      j := j + 1;
    }
  }
}
