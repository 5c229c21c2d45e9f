// Facts about the block of a buffer that one matrix addresses: its element
// sequence in row-major order, its footprint, the sub-block of one leading
// index, and when the block is a plain run of the buffer.

module Blocks {
  import opened Shape
  import opened Iter

  /** The elements of the block, in row-major order. */
  ghost function Gather<T>(buf: array<T>, start: int, sizes: seq<nat>, steps: seq<nat>): (r: seq<T>)
    reads buf
    requires Layout(sizes, steps, start, buf.Length)
    ensures |r| == Product(sizes)
  {
    seq(Product(sizes), k requires 0 <= k < Product(sizes) reads buf => ElementAt(buf, start, sizes, steps, k))
  }

  /** The buffer positions the block addresses. */
  ghost function Footprint(start: int, sizes: seq<nat>, steps: seq<nat>): set<int>
    requires Nested(sizes, steps)
  {
    set k | 0 <= k < Product(sizes) :: start + ElemOffset(k, sizes, steps)
  }

  /** The layout of the axes after the first, for a contiguous layout. */
  lemma ContiguousTail(sizes: seq<nat>, steps: seq<nat>)
    requires |sizes| == |steps| >= 2 && Positive(sizes) && IsContiguous(sizes, steps)
    ensures Positive(sizes[1..]) && IsContiguous(sizes[1..], steps[1..])
    ensures steps[0] == Product(sizes[1..])
  {
    var s, t := sizes[1..], steps[1..];
    forall i | 0 <= i < |s| ensures s[i] > 0 { assert s[i] == sizes[i + 1]; }
    forall i | 0 < i < |t| ensures StepIsBlock(s, t, i) {
      assert s[i] == sizes[i + 1] && t[i] == steps[i + 1] && t[i - 1] == steps[i];
      assert StepIsBlock(sizes, steps, i + 1);
    }
    ContiguousIffRowMajor(sizes, steps);
    RowMajorStepsAt(sizes, 0);
  }

  /** A contiguous block spans exactly Product(sizes) consecutive positions. */
  lemma {:induction false} ContiguousMaxOffset(sizes: seq<nat>, steps: seq<nat>)
    requires |sizes| == |steps| >= 1 && Positive(sizes) && IsContiguous(sizes, steps)
    ensures MaxOffset(sizes, steps) == Product(sizes) - 1
    decreases |sizes|
  {
    if |sizes| == 1 {
      assert sizes[1..] == [] && steps[1..] == [];
    } else {
      ContiguousTail(sizes, steps);
      ContiguousMaxOffset(sizes[1..], steps[1..]);
    }
  }

  /** A contiguous block that fits the buffer is the run buf[start..start + Product(sizes)]. */
  lemma ContiguousGather<T>(buf: array<T>, start: int, sizes: seq<nat>, steps: seq<nat>)
    requires Layout(sizes, steps, start, buf.Length) && IsContiguous(sizes, steps)
    ensures start + Product(sizes) <= buf.Length
    ensures Gather(buf, start, sizes, steps) == buf[start..start + Product(sizes)]
  {
    ContiguousMaxOffset(sizes, steps);
    forall k | 0 <= k < Product(sizes)
      ensures Gather(buf, start, sizes, steps)[k] == buf[start..start + Product(sizes)][k]
    {
      ContiguousOffset(k, sizes, steps);
    }
  }

  /** A contiguous layout with Product(sizes) positions left after its start fits the buffer. */
  lemma ContiguousLayout(sizes: seq<nat>, steps: seq<nat>, start: int, length: int)
    requires |sizes| == |steps| >= 1 && Positive(sizes) && IsContiguous(sizes, steps)
    requires 0 <= start && start + Product(sizes) <= length
    ensures Layout(sizes, steps, start, length)
  {
    ContiguousIsNested(sizes, steps);
    ContiguousMaxOffset(sizes, steps);
  }

  /**
   * The sub-block of leading index i starts i outer strides further on, has
   * the trailing extents and strides, and holds the i-th run of
   * Product(sizes[1..]) elements of the block.
   */
  lemma RowBlock<T>(buf: array<T>, start: int, sizes: seq<nat>, steps: seq<nat>, i: nat)
    requires Layout(sizes, steps, start, buf.Length) && |sizes| >= 2 && i < sizes[0]
    ensures Layout(sizes[1..], steps[1..], start + i * steps[0], buf.Length)
    ensures (i + 1) * Product(sizes[1..]) <= Product(sizes)
    ensures Gather(buf, start + i * steps[0], sizes[1..], steps[1..])
         == Gather(buf, start, sizes, steps)[i * Product(sizes[1..])..(i + 1) * Product(sizes[1..])]
  {
    var w := Product(sizes[1..]);
    NestedTail(sizes, steps);
    ProductPositive(sizes[1..]);
    MulLe(i, sizes[0] - 1, steps[0]);
    assert MaxOffset(sizes, steps) == (sizes[0] - 1) * steps[0] + MaxOffset(sizes[1..], steps[1..]);
    MulLe(i + 1, sizes[0], w);
    StepsPositive(sizes, steps);
    var g := Gather(buf, start, sizes, steps);
    var h := Gather(buf, start + i * steps[0], sizes[1..], steps[1..]);
    forall k | 0 <= k < w ensures h[k] == g[i * w..(i + 1) * w][k] {
      MulSucc(i, w);
      DivModOf(i, w, k);
      ElemOffsetSplit(i * w + k, sizes, steps);
    }
  }

  /** Row-major positions of in-range multi-indices are distinct. */
  lemma {:induction false} LinInjective(p: seq<int>, q: seq<int>, sizes: seq<nat>)
    requires InRange(p, sizes) && InRange(q, sizes) && Lin(p, sizes) == Lin(q, sizes)
    ensures p == q
  {
    if |sizes| > 0 {
      var s := sizes[1..];
      assert InRange(p[1..], s) && InRange(q[1..], s) by {
        forall i | 0 <= i < |s| ensures 0 <= p[1..][i] < s[i] && 0 <= q[1..][i] < s[i] {
          assert s[i] == sizes[i + 1] && p[1..][i] == p[i + 1] && q[1..][i] == q[i + 1];
        }
      }
      LinBelow(p[1..], s);
      LinBelow(q[1..], s);
      var w := Product(s);
      DivModOf(p[0], w, Lin(p[1..], s));
      DivModOf(q[0], w, Lin(q[1..], s));
      LinInjective(p[1..], q[1..], s);
      assert p == [p[0]] + p[1..] && q == [q[0]] + q[1..];
    }
  }

  /** An in-range multi-index has a row-major position in [0, Product(sizes)). */
  lemma {:induction false} LinBelow(p: seq<int>, sizes: seq<nat>)
    requires InRange(p, sizes)
    ensures 0 <= Lin(p, sizes) < Product(sizes)
  {
    if |sizes| > 0 {
      var s := sizes[1..];
      assert InRange(p[1..], s) by {
        forall i | 0 <= i < |s| ensures 0 <= p[1..][i] < s[i] { assert s[i] == sizes[i + 1] && p[1..][i] == p[i + 1]; }
      }
      LinBelow(p[1..], s);
      MulLe(p[0] + 1, sizes[0], Product(s));
      MulSucc(p[0], Product(s));
    }
  }

  /** Distinct in-range multi-indices of a nested layout address distinct positions. */
  lemma DotInjective(p: seq<int>, q: seq<int>, sizes: seq<nat>, steps: seq<nat>)
    requires Nested(sizes, steps) && InRange(p, sizes) && InRange(q, sizes) && Dot(p, steps) == Dot(q, steps)
    ensures p == q
  {
    LinOffset(p, sizes, steps);
    LinOffset(q, sizes, steps);
    var lp, lq := Lin(p, sizes), Lin(q, sizes);
    if lp < lq {
      OffsetMonotone(lp, lq, sizes, steps);
    } else if lq < lp {
      OffsetMonotone(lq, lp, sizes, steps);
    }
    LinInjective(p, q, sizes);
  }

  /** The offset of a concatenated index splits at the seam. */
  lemma {:induction false} DotConcat(a: seq<int>, b: seq<int>, steps: seq<nat>)
    requires |a| + |b| == |steps|
    ensures Dot(a + b, steps) == Dot(a, steps[..|a|]) + Dot(b, steps[|a|..])
  {
    if |a| > 0 {
      assert (a + b)[1..] == a[1..] + b;
      assert steps[1..][..|a| - 1] == steps[..|a|][1..];
      assert steps[1..][|a| - 1..] == steps[|a|..];
      DotConcat(a[1..], b, steps[1..]);
    } else {
      assert a + b == b && steps[|a|..] == steps;
    }
  }

  /**
   * Fixing the first |q| coordinates of a block at in-range values leaves
   * the block of the remaining axes, which starts at the offset of q and
   * still fits the buffer.
   */
  lemma {:induction false} PrefixLayout(q: seq<int>, sizes: seq<nat>, steps: seq<nat>, start: int, length: int)
    requires Layout(sizes, steps, start, length) && |q| < |sizes| && InRange(q, sizes[..|q|])
    ensures Layout(sizes[|q|..], steps[|q|..], start + Dot(q, steps[..|q|]), length)
    decreases |q|
  {
    if |q| == 0 {
      assert sizes[0..] == sizes && steps[0..] == steps;
    } else {
      NestedTail(sizes, steps);
      MulLe(q[0], sizes[0] - 1, steps[0]);
      var st := start + q[0] * steps[0];
      assert Layout(sizes[1..], steps[1..], st, length);
      var k := |q| - 1;
      assert InRange(q[1..], sizes[1..][..k]) by {
        forall i | 0 <= i < k ensures 0 <= q[1..][i] < sizes[1..][..k][i] {
          assert q[1..][i] == q[i + 1] && sizes[1..][..k][i] == sizes[..|q|][i + 1];
        }
      }
      PrefixLayout(q[1..], sizes[1..], steps[1..], st, length);
      assert sizes[1..][k..] == sizes[|q|..] && steps[1..][k..] == steps[|q|..];
      assert steps[..|q|][1..] == steps[1..][..k];
    }
  }

  /** A cell of a block lies in the buffer and in the block's footprint. */
  lemma CellInFootprint(p: seq<int>, sizes: seq<nat>, steps: seq<nat>, start: int, length: int)
    requires Layout(sizes, steps, start, length) && InRange(p, sizes)
    ensures 0 <= start + Dot(p, steps) < length
    ensures start + Dot(p, steps) in Footprint(start, sizes, steps)
  {
    LinOffset(p, sizes, steps);
    OffsetBounds(Lin(p, sizes), sizes, steps);
  }

  /** The position of cell (a, b) of a rank-2 block. */
  function Addr2(start: int, steps: seq<nat>, a: int, b: int): int
    requires |steps| == 2
  {
    start + Dot([a, b], steps)
  }

  /**
   * Whether the in-place transpose, about to visit row i at column j
   * (j < i), has already exchanged cells (a, b) and (b, a): it visits the
   * cells below the diagonal row by row.
   */
  predicate Swapped(a: nat, b: nat, i: nat, j: nat)
  {
    a != b && ((a < i && b < i) || (a == i && b < j) || (b == i && a < j))
  }

  /**
   * The buffer cur of a square block of extent n, as the in-place transpose
   * leaves it at row i, column j: every cell already exchanged holds the
   * original value of its mirror, every other cell its own original value.
   */
  ghost predicate TransposeState<T>(cur: seq<T>, orig: seq<T>, start: int, steps: seq<nat>, n: nat, i: nat, j: nat)
    requires |steps| == 2
  {
    |cur| == |orig| &&
    forall a: nat, b: nat :: a < n && b < n ==>
      0 <= Addr2(start, steps, a, b) < |cur| && 0 <= Addr2(start, steps, b, a) < |cur| &&
      cur[Addr2(start, steps, a, b)] ==
        (if Swapped(a, b, i, j) then orig[Addr2(start, steps, b, a)] else orig[Addr2(start, steps, a, b)])
  }

  /** Before the first exchange every cell holds its own value. */
  lemma TransposeStart<T>(orig: seq<T>, start: int, sizes: seq<nat>, steps: seq<nat>)
    requires |sizes| == 2 && sizes[0] == sizes[1] && Layout(sizes, steps, start, |orig|)
    ensures TransposeState(orig, orig, start, steps, sizes[0], 0, 0)
  {
    forall a: nat, b: nat | a < sizes[0] && b < sizes[0]
      ensures 0 <= Addr2(start, steps, a, b) < |orig| && 0 <= Addr2(start, steps, b, a) < |orig|
    {
      CellInFootprint([a, b], sizes, steps, start, |orig|);
      CellInFootprint([b, a], sizes, steps, start, |orig|);
    }
  }

  /**
   * Exchanging cells (i, j) and (j, i), j < i, moves the transpose on to
   * column j + 1: the two cells of a square nested block are distinct and
   * no other cell shares a position with either.
   */
  lemma SwapStep<T>(prev: seq<T>, cur: seq<T>, orig: seq<T>, start: int, sizes: seq<nat>, steps: seq<nat>, i: nat, j: nat)
    requires |sizes| == 2 && sizes[0] == sizes[1] && Nested(sizes, steps) && j < i < sizes[0]
    requires TransposeState(prev, orig, start, steps, sizes[0], i, j)
    requires cur == prev[Addr2(start, steps, i, j) := prev[Addr2(start, steps, j, i)]]
                        [Addr2(start, steps, j, i) := prev[Addr2(start, steps, i, j)]]
    ensures TransposeState(cur, orig, start, steps, sizes[0], i, j + 1)
  {
    var p, q := Addr2(start, steps, i, j), Addr2(start, steps, j, i);
    assert InRange([i, j], sizes) && InRange([j, i], sizes);
    if p == q {
      DotInjective([i, j], [j, i], sizes, steps);
    }
    forall a: nat, b: nat | a < sizes[0] && b < sizes[0]
      ensures cur[Addr2(start, steps, a, b)] ==
        (if Swapped(a, b, i, j + 1) then orig[Addr2(start, steps, b, a)] else orig[Addr2(start, steps, a, b)])
    {
      assert InRange([a, b], sizes);
      var x := Addr2(start, steps, a, b);
      if !(a == i && b == j) && !(a == j && b == i) {
        if x == p { DotInjective([a, b], [i, j], sizes, steps); }
        if x == q { DotInjective([a, b], [j, i], sizes, steps); }
        assert cur[x] == prev[x];
      }
    }
  }

  /** Finishing row i is starting row i + 1. */
  lemma NextRow<T>(cur: seq<T>, orig: seq<T>, start: int, steps: seq<nat>, n: nat, i: nat)
    requires |steps| == 2 && TransposeState(cur, orig, start, steps, n, i, i)
    ensures TransposeState(cur, orig, start, steps, n, i + 1, 0)
  {
    forall a: nat, b: nat | a < n && b < n ensures Swapped(a, b, i, i) == Swapped(a, b, i + 1, 0) {
    }
  }

  /**
   * The buffer dst of a rank-2 block, as the copying transpose leaves it at
   * row i, column j of the source: every source cell (a, b) already visited
   * (row by row) has been written to cell (b, a) of dst.
   */
  ghost predicate TransposedUpTo<T>(dst: seq<T>, dstart: int, dsteps: seq<nat>,
                                    src: seq<T>, sstart: int, ssteps: seq<nat>, rows: nat, cols: nat, i: nat, j: nat)
    requires |dsteps| == 2 && |ssteps| == 2
  {
    forall a: nat, b: nat :: a < rows && b < cols && (a < i || (a == i && b < j)) ==>
      0 <= Addr2(dstart, dsteps, b, a) < |dst| && 0 <= Addr2(sstart, ssteps, a, b) < |src| &&
      dst[Addr2(dstart, dsteps, b, a)] == src[Addr2(sstart, ssteps, a, b)]
  }

  /**
   * Writing source cell (i, j) to cell (j, i) of a nested destination block
   * of extents [cols, rows] moves the copy on to column j + 1: no cell
   * written before shares that position.
   */
  lemma CopyStep<T>(prev: seq<T>, cur: seq<T>, dstart: int, dsizes: seq<nat>, dsteps: seq<nat>,
                    src: seq<T>, sstart: int, ssizes: seq<nat>, ssteps: seq<nat>, i: nat, j: nat)
    requires |ssizes| == 2 && Layout(ssizes, ssteps, sstart, |src|)
    requires dsizes == [ssizes[1], ssizes[0]] && Layout(dsizes, dsteps, dstart, |prev|)
    requires i < ssizes[0] && j < ssizes[1]
    requires TransposedUpTo(prev, dstart, dsteps, src, sstart, ssteps, ssizes[0], ssizes[1], i, j)
    requires 0 <= Addr2(dstart, dsteps, j, i) < |prev| && 0 <= Addr2(sstart, ssteps, i, j) < |src|
    requires cur == prev[Addr2(dstart, dsteps, j, i) := src[Addr2(sstart, ssteps, i, j)]]
    ensures TransposedUpTo(cur, dstart, dsteps, src, sstart, ssteps, ssizes[0], ssizes[1], i, j + 1)
  {
    var x := Addr2(dstart, dsteps, j, i);
    forall a: nat, b: nat | a < ssizes[0] && b < ssizes[1] && (a < i || (a == i && b < j + 1))
      ensures 0 <= Addr2(dstart, dsteps, b, a) < |cur| && 0 <= Addr2(sstart, ssteps, a, b) < |src| &&
              cur[Addr2(dstart, dsteps, b, a)] == src[Addr2(sstart, ssteps, a, b)]
    {
      assert InRange([b, a], dsizes) && InRange([j, i], dsizes);
      if a != i || b != j {
        if Addr2(dstart, dsteps, b, a) == x { DotInjective([b, a], [j, i], dsizes, dsteps); }
      }
    }
  }

  /** Finishing source row i is starting row i + 1. */
  lemma CopyNextRow<T>(dst: seq<T>, dstart: int, dsteps: seq<nat>,
                       src: seq<T>, sstart: int, ssteps: seq<nat>, rows: nat, cols: nat, i: nat)
    requires |dsteps| == 2 && |ssteps| == 2
    requires TransposedUpTo(dst, dstart, dsteps, src, sstart, ssteps, rows, cols, i, cols)
    ensures TransposedUpTo(dst, dstart, dsteps, src, sstart, ssteps, rows, cols, i + 1, 0)
  {
  }
}
