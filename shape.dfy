// Index arithmetic shared by the matrix and its iterator: element counts,
// row-major strides, the continuity test, and the mapping from a row-major
// position (or a multi-index) to an offset from the first element.

module Shape {

  /** The number of elements of a block with these extents. */
  function Product(s: seq<nat>): nat
  {
    if |s| == 0 then 1 else s[0] * Product(s[1..])
  }

  predicate Positive(s: seq<nat>)
  {
    forall i :: 0 <= i < |s| ==> s[i] > 0
  }

  /** The extents after the first are positive when all of them are. */
  lemma PositiveTail(s: seq<nat>)
    requires |s| >= 1 && Positive(s)
    ensures Positive(s[1..]) && Product(s[1..]) > 0
  {
    forall i | 0 <= i < |s| - 1 ensures s[1..][i] > 0 { assert s[1..][i] == s[i + 1]; }
    ProductPositive(s[1..]);
  }

  lemma {:induction false} ProductPositive(s: seq<nat>)
    requires Positive(s)
    ensures Product(s) > 0
  {
    if |s| > 0 {
      assert Positive(s[1..]) by {
        forall i | 0 <= i < |s[1..]| ensures s[1..][i] > 0 { assert s[1..][i] == s[i + 1]; }
      }
      ProductPositive(s[1..]);
    }
  }

  /** A block with a zero extent holds no element. */
  lemma {:induction false} ProductZero(s: seq<nat>, i: nat)
    requires i < |s| && s[i] == 0
    ensures Product(s) == 0
  {
    if i > 0 {
      assert s[1..][i - 1] == s[i];
      ProductZero(s[1..], i - 1);
    }
  }

  /** A positive product has only positive factors. */
  lemma ProductPositiveParts(s: seq<nat>)
    requires Product(s) > 0
    ensures Positive(s)
  {
    forall i | 0 <= i < |s| ensures s[i] > 0 {
      if s[i] == 0 {
        ProductZero(s, i);
      }
    }
  }

  lemma ProductStep(s: seq<nat>, i: nat)
    requires i < |s|
    ensures Product(s[i..]) == s[i] * Product(s[i + 1..])
  {
    assert s[i..][1..] == s[i + 1..];
  }

  lemma ProductOfZeros(n: nat)
    ensures n >= 1 ==> Product(seq(n, _ => 0)) == 0
  {
    if n >= 1 {
      ProductZero(seq(n, _ => 0), 0);
    }
  }

  /** The strides of a densely packed row-major block: steps[i] = sizes[i+1] * ... * sizes[n-1]. */
  function RowMajorSteps(sizes: seq<nat>): (steps: seq<nat>)
    ensures |steps| == |sizes|
  {
    if |sizes| == 0 then [] else [Product(sizes[1..])] + RowMajorSteps(sizes[1..])
  }

  lemma {:induction false} RowMajorStepsAt(sizes: seq<nat>, i: nat)
    requires i < |sizes|
    ensures RowMajorSteps(sizes)[i] == Product(sizes[i + 1..])
  {
    if i > 0 {
      RowMajorStepsAt(sizes[1..], i - 1);
      assert sizes[1..][i..] == sizes[i + 1..];
    }
  }

  /**
   * The continuity test of the matrix: the last stride is 1 and every stride
   * is the next extent times the next stride.
   */
  predicate IsContiguous(sizes: seq<nat>, steps: seq<nat>)
    requires |sizes| == |steps| >= 1
  {
    steps[|steps| - 1] == 1 &&
    forall i :: 0 < i < |steps| ==> StepIsBlock(sizes, steps, i)
  }

  /** One stride of axis i - 1 is exactly one block of axis i. */
  predicate StepIsBlock(sizes: seq<nat>, steps: seq<nat>, i: nat)
    requires 0 < i < |sizes| == |steps|
  {
    sizes[i] * steps[i] == steps[i - 1]
  }

  /** One stride of axis i - 1 covers at least one block of axis i. */
  predicate StepCovers(sizes: seq<nat>, steps: seq<nat>, i: nat)
    requires 0 < i < |sizes| == |steps|
  {
    sizes[i] * steps[i] <= steps[i - 1]
  }

  /** Contiguous strides are exactly the row-major strides of the extents. */
  lemma {:induction false} ContiguousIffRowMajor(sizes: seq<nat>, steps: seq<nat>)
    requires |sizes| == |steps| >= 1
    ensures IsContiguous(sizes, steps) <==> steps == RowMajorSteps(sizes)
  {
    var n := |sizes|;
    var rm := RowMajorSteps(sizes);
    forall i | 0 <= i < n ensures rm[i] == Product(sizes[i + 1..]) { RowMajorStepsAt(sizes, i); }
    if IsContiguous(sizes, steps) {
      var k := n - 1;
      assert sizes[n..] == [];
      while k > 0
        invariant 0 <= k < n
        invariant forall j :: k <= j < n ==> steps[j] == rm[j]
      {
        ProductStep(sizes, k);
        assert StepIsBlock(sizes, steps, k);
        k := k - 1;
      }
    }
    if steps == rm {
      assert sizes[n..] == [];
      forall i | 0 < i < n ensures StepIsBlock(sizes, steps, i) { ProductStep(sizes, i); }
    }
  }

  /**
   * The invariant every stride layout of a matrix keeps: extents are positive,
   * the last stride is 1, and one step along an axis covers at least the
   * whole block of the axes after it. Contiguous layouts and every view cut
   * out of one satisfy it.
   */
  predicate Nested(sizes: seq<nat>, steps: seq<nat>)
  {
    |sizes| == |steps| >= 1 && Positive(sizes) && steps[|steps| - 1] == 1 &&
    forall i :: 0 < i < |steps| ==> StepCovers(sizes, steps, i)
  }

  lemma ContiguousIsNested(sizes: seq<nat>, steps: seq<nat>)
    requires |sizes| == |steps| >= 1 && Positive(sizes) && IsContiguous(sizes, steps)
    ensures Nested(sizes, steps)
  {
    forall i | 0 < i < |steps| ensures StepCovers(sizes, steps, i) { assert StepIsBlock(sizes, steps, i); }
  }

  lemma NestedTail(sizes: seq<nat>, steps: seq<nat>)
    requires Nested(sizes, steps) && |sizes| >= 2
    ensures Nested(sizes[1..], steps[1..])
  {
    var s, t := sizes[1..], steps[1..];
    forall i | 0 <= i < |s| ensures s[i] > 0 { assert s[i] == sizes[i + 1]; }
    forall i | 0 < i < |t| ensures StepCovers(s, t, i) {
      assert s[i] == sizes[i + 1] && t[i] == steps[i + 1] && t[i - 1] == steps[i];
      assert StepCovers(sizes, steps, i + 1);
    }
  }

  /** The largest offset of an element from the first one. */
  function MaxOffset(sizes: seq<nat>, steps: seq<nat>): int
    requires |sizes| == |steps|
  {
    if |sizes| == 0 then 0 else (sizes[0] - 1) * steps[0] + MaxOffset(sizes[1..], steps[1..])
  }

  /**
   * The offset, from the first element, of the element at row-major position
   * k: the first axis index is k div (size of a sub-block), the rest is the
   * offset of the remainder inside the sub-block.
   */
  function ElemOffset(k: nat, sizes: seq<nat>, steps: seq<nat>): nat
    requires |sizes| == |steps| >= 1 && Positive(sizes)
    decreases |sizes|
  {
    if |sizes| == 1 then k * steps[0]
    else
      var w := Product(sizes[1..]);
      assert Positive(sizes[1..]) by {
        forall i | 0 <= i < |sizes| - 1 ensures sizes[1..][i] > 0 { assert sizes[1..][i] == sizes[i + 1]; }
      }
      ProductPositive(sizes[1..]);
      (k / w) * steps[0] + ElemOffset(k % w, sizes[1..], steps[1..])
  }

  lemma MulLe(a: int, b: int, c: nat)
    requires a <= b
    ensures a * c <= b * c
  {
  }

  lemma MulSucc(a: int, b: int)
    ensures (a + 1) * b == a * b + b
  {
  }

  lemma DivModOf(q: int, w: int, r: int)
    requires w > 0 && 0 <= r < w
    ensures (q * w + r) / w == q && (q * w + r) % w == r
  {
    var n := q * w + r;
    var q', r' := n / w, n % w;
    assert q' * w + r' == q * w + r;
    if q' < q {
      MulLe(q' + 1, q, w);
      assert false;
    } else if q' > q {
      MulLe(q + 1, q', w);
      assert false;
    }
  }

  /** The offsets of a nested layout lie in [0, MaxOffset] and MaxOffset stays below one outer step. */
  lemma {:induction false} OffsetBounds(k: nat, sizes: seq<nat>, steps: seq<nat>)
    requires Nested(sizes, steps) && k < Product(sizes)
    ensures ElemOffset(k, sizes, steps) <= MaxOffset(sizes, steps) < sizes[0] * steps[0]
    decreases |sizes|
  {
    if |sizes| == 1 {
      assert sizes[1..] == [];
      MulLe(k, sizes[0] - 1, steps[0]);
    } else {
      var w := Product(sizes[1..]);
      NestedTail(sizes, steps);
      ProductPositive(sizes[1..]);
      DivModOf(k / w, w, k % w);
      if k / w >= sizes[0] {
        MulLe(sizes[0], k / w, w);
        assert false;
      }
      OffsetBounds(k % w, sizes[1..], steps[1..]);
      MulLe(k / w, sizes[0] - 1, steps[0]);
      assert StepCovers(sizes, steps, 1);
    }
  }

  lemma {:induction false} MaxOffsetBelow(sizes: seq<nat>, steps: seq<nat>)
    requires Nested(sizes, steps)
    ensures 0 <= MaxOffset(sizes, steps) < sizes[0] * steps[0]
  {
    ProductPositive(sizes);
    OffsetBounds(0, sizes, steps);
  }

  lemma DivMonotone(a: nat, b: nat, w: nat)
    requires w > 0 && a <= b
    ensures a / w <= b / w
  {
    if a / w > b / w {
      DivModOf(a / w, w, a % w);
      DivModOf(b / w, w, b % w);
      MulLe(b / w + 1, a / w, w);
    }
  }

  lemma NestedOuterStep(sizes: seq<nat>, steps: seq<nat>)
    requires Nested(sizes, steps) && |sizes| >= 2
    ensures MaxOffset(sizes[1..], steps[1..]) < steps[0]
  {
    NestedTail(sizes, steps);
    MaxOffsetBelow(sizes[1..], steps[1..]);
    assert StepCovers(sizes, steps, 1);
    assert sizes[1..][0] * steps[1..][0] == sizes[1] * steps[1] <= steps[0];
  }

  /** One unfolding of ElemOffset for a layout of two or more axes. */
  lemma ElemOffsetSplit(k: nat, sizes: seq<nat>, steps: seq<nat>)
    requires Nested(sizes, steps) && |sizes| >= 2
    ensures Product(sizes[1..]) > 0 && Nested(sizes[1..], steps[1..])
    ensures ElemOffset(k, sizes, steps)
         == (k / Product(sizes[1..])) * steps[0] + ElemOffset(k % Product(sizes[1..]), sizes[1..], steps[1..])
  {
    NestedTail(sizes, steps);
    ProductPositive(sizes[1..]);
  }

  lemma SameBlock(k1: nat, k2: nat, w: nat)
    requires w > 0 && k1 < k2 && k1 / w == k2 / w
    ensures k1 % w < k2 % w
  {
    var q := k1 / w;
    DivModOf(q, w, k1 % w);
    DivModOf(q, w, k2 % w);
  }

  lemma FirstIndexBelow(k: nat, s0: nat, w: nat)
    requires w > 0 && k < s0 * w
    ensures k / w < s0
  {
    DivModOf(k / w, w, k % w);
    if k / w >= s0 {
      MulLe(s0, k / w, w);
    }
  }

  /** Row-major position and offset agree in order: the mapping k -> offset is strictly increasing. */
  lemma {:induction false} OffsetMonotone(k1: nat, k2: nat, sizes: seq<nat>, steps: seq<nat>)
    requires Nested(sizes, steps) && k1 < k2 <= Product(sizes)
    ensures ElemOffset(k1, sizes, steps) < ElemOffset(k2, sizes, steps)
    decreases |sizes|
  {
    if |sizes| == 1 {
      assert sizes[1..] == [];
    } else {
      var w := Product(sizes[1..]);
      ElemOffsetSplit(k1, sizes, steps);
      ElemOffsetSplit(k2, sizes, steps);
      DivMonotone(k1, k2, w);
      FirstIndexBelow(k1, sizes[0], w);
      if k1 / w == k2 / w {
        SameBlock(k1, k2, w);
        OffsetMonotone(k1 % w, k2 % w, sizes[1..], steps[1..]);
      } else {
        var q1, q2, t0 := k1 / w, k2 / w, steps[0];
        OffsetBounds(k1 % w, sizes[1..], steps[1..]);
        NestedOuterStep(sizes, steps);
        MulLe(q1 + 1, q2, t0);
        MulSucc(q1, t0);
        assert ElemOffset(k1 % w, sizes[1..], steps[1..]) < t0;
        assert ElemOffset(k1, sizes, steps) < q2 * t0 <= ElemOffset(k2, sizes, steps);
      }
    }
  }

  /** The past-the-end position sits one outer step after the first element. */
  lemma {:induction false} EndOffset(sizes: seq<nat>, steps: seq<nat>)
    requires |sizes| == |steps| >= 1 && Positive(sizes)
    ensures ElemOffset(Product(sizes), sizes, steps) == sizes[0] * steps[0]
  {
    if |sizes| > 1 {
      var w := Product(sizes[1..]);
      assert Positive(sizes[1..]) by {
        forall i | 0 <= i < |sizes| - 1 ensures sizes[1..][i] > 0 { assert sizes[1..][i] == sizes[i + 1]; }
      }
      ProductPositive(sizes[1..]);
      DivModOf(sizes[0], w, 0);
      ZeroOffset(sizes[1..], steps[1..]);
    } else {
      assert sizes[1..] == [];
    }
  }

  lemma {:induction false} ZeroOffset(sizes: seq<nat>, steps: seq<nat>)
    requires |sizes| == |steps| >= 1 && Positive(sizes)
    ensures ElemOffset(0, sizes, steps) == 0
    decreases |sizes|
  {
    if |sizes| > 1 {
      var w := Product(sizes[1..]);
      assert Positive(sizes[1..]) by {
        forall i | 0 <= i < |sizes| - 1 ensures sizes[1..][i] > 0 { assert sizes[1..][i] == sizes[i + 1]; }
      }
      ProductPositive(sizes[1..]);
      ZeroOffset(sizes[1..], steps[1..]);
    }
  }

  /** In a contiguous layout the element at position k is k elements after the first. */
  lemma {:induction false} ContiguousOffset(k: nat, sizes: seq<nat>, steps: seq<nat>)
    requires |sizes| == |steps| >= 1 && Positive(sizes) && IsContiguous(sizes, steps)
    ensures ElemOffset(k, sizes, steps) == k
    decreases |sizes|
  {
    if |sizes| > 1 {
      var w := Product(sizes[1..]);
      ContiguousIffRowMajor(sizes, steps);
      RowMajorStepsAt(sizes, 0);
      var s, t := sizes[1..], steps[1..];
      assert Positive(s) && IsContiguous(s, t) by {
        forall i | 0 <= i < |s| ensures s[i] > 0 { assert s[i] == sizes[i + 1]; }
        forall i | 0 < i < |t| ensures StepIsBlock(s, t, i) {
          assert s[i] == sizes[i + 1] && t[i] == steps[i + 1] && t[i - 1] == steps[i];
          assert StepIsBlock(sizes, steps, i + 1);
        }
      }
      ProductPositive(s);
      ContiguousOffset(k % w, s, t);
    }
  }

  /** The sum of index times stride: the offset of a multi-index. */
  function Dot(idx: seq<int>, steps: seq<nat>): int
    requires |idx| == |steps|
  {
    if |idx| == 0 then 0 else idx[0] * steps[0] + Dot(idx[1..], steps[1..])
  }

  /** The row-major position of a multi-index. */
  function Lin(idx: seq<int>, sizes: seq<nat>): int
    requires |idx| == |sizes|
  {
    if |idx| == 0 then 0 else idx[0] * Product(sizes[1..]) + Lin(idx[1..], sizes[1..])
  }

  predicate InRange(idx: seq<int>, sizes: seq<nat>)
  {
    |idx| == |sizes| && forall i :: 0 <= i < |idx| ==> 0 <= idx[i] < sizes[i]
  }

  /** Changing one coordinate shifts the offset by the change times that axis' stride. */
  lemma {:induction false} DotUpdate(idx: seq<int>, steps: seq<nat>, i: nat, v: int)
    requires |idx| == |steps| && i < |idx|
    ensures Dot(idx[i := v], steps) == Dot(idx, steps) + (v - idx[i]) * steps[i]
  {
    if i > 0 {
      DotUpdate(idx[1..], steps[1..], i - 1, v);
      assert idx[i := v][1..] == idx[1..][i - 1 := v];
    } else {
      assert idx[0 := v][1..] == idx[1..];
    }
  }

  /** Changing one coordinate shifts the position by the change times the block size after that axis. */
  lemma {:induction false} LinUpdate(idx: seq<int>, sizes: seq<nat>, i: nat, v: int)
    requires |idx| == |sizes| && i < |idx|
    ensures Lin(idx[i := v], sizes) == Lin(idx, sizes) + (v - idx[i]) * Product(sizes[i + 1..])
  {
    if i > 0 {
      LinUpdate(idx[1..], sizes[1..], i - 1, v);
      assert idx[i := v][1..] == idx[1..][i - 1 := v];
      assert sizes[1..][i..] == sizes[i + 1..];
    } else {
      assert idx[0 := v][1..] == idx[1..];
    }
  }

  /**
   * An in-range multi-index has a position in [0, Product) and the element at
   * that position is the one the multi-index addresses.
   */
  lemma {:induction false} LinOffset(idx: seq<int>, sizes: seq<nat>, steps: seq<nat>)
    requires |sizes| == |steps| >= 1 && Positive(sizes) && InRange(idx, sizes)
    ensures 0 <= Lin(idx, sizes) < Product(sizes)
    ensures ElemOffset(Lin(idx, sizes), sizes, steps) == Dot(idx, steps)
    decreases |sizes|
  {
    var w := Product(sizes[1..]);
    if |sizes| == 1 {
      assert sizes[1..] == [] && idx[1..] == [] && steps[1..] == [];
    } else {
      var s, t, x := sizes[1..], steps[1..], idx[1..];
      assert Positive(s) && InRange(x, s) by {
        forall i | 0 <= i < |s| ensures s[i] > 0 && 0 <= x[i] < s[i] {
          assert s[i] == sizes[i + 1] && x[i] == idx[i + 1];
        }
      }
      LinOffset(x, s, t);
      var l := Lin(idx, sizes);
      assert l == idx[0] * w + Lin(x, s) && Product(sizes) == sizes[0] * w;
      assert Dot(idx, steps) == idx[0] * steps[0] + Dot(x, t);
      ProductPositive(s);
      DivModOf(idx[0], w, Lin(x, s));
      SplitRange(idx[0], Lin(x, s), sizes[0], w);
      assert ElemOffset(l, sizes, steps) == (l / w) * steps[0] + ElemOffset(l % w, s, t);
    }
  }

  /** The position of a prefix index q followed by zeros. */
  lemma {:induction false} LinLeading(q: int, sizes: seq<nat>, steps: seq<nat>)
    requires |sizes| == |steps| >= 1
    ensures Lin([q] + seq(|sizes| - 1, _ => 0), sizes) == q * Product(sizes[1..])
    ensures Dot([q] + seq(|sizes| - 1, _ => 0), steps) == q * steps[0]
  {
    var z := seq(|sizes| - 1, _ => 0);
    assert ([q] + z)[1..] == z;
    ZerosAreOrigin(z, sizes[1..], steps[1..]);
  }

  lemma {:induction false} ZerosAreOrigin(z: seq<int>, sizes: seq<nat>, steps: seq<nat>)
    requires |z| == |sizes| == |steps| && forall i :: 0 <= i < |z| ==> z[i] == 0
    ensures Lin(z, sizes) == 0 && Dot(z, steps) == 0
  {
    if |z| > 0 {
      ZerosAreOrigin(z[1..], sizes[1..], steps[1..]);
    }
  }

  /** C++ integer division, which truncates toward zero. */
  function TDiv(a: int, b: int): int
    requires b != 0
  {
    if a >= 0 then (if b > 0 then a / b else -(a / -b))
    else (if b > 0 then -((-a) / b) else (-a) / (-b))
  }

  /** C++ remainder: it takes the sign of the dividend. */
  function TMod(a: int, b: int): int
    requires b != 0
  {
    a - b * TDiv(a, b)
  }

  lemma TDivFacts(a: int, b: int)
    requires b > 0
    ensures a == TDiv(a, b) * b + TMod(a, b)
    ensures a >= 0 ==> TDiv(a, b) == a / b && TMod(a, b) == a % b
    ensures a < 0 ==> -b < TMod(a, b) <= 0 && TDiv(a, b) == -((-a) / b)
  {
  }

  /** The C++ remainder is smaller in magnitude than the divisor. */
  lemma TruncSplit(a: int, b: int)
    requires b > 0
    ensures a == TDiv(a, b) * b + TMod(a, b) && -b < TMod(a, b) < b
  {
    TDivFacts(a, b);
  }

  /** Correcting a negative C++ remainder by one divisor yields the floor quotient and remainder. */
  lemma FloorFromTrunc(a: int, b: int)
    requires b > 0
    ensures TMod(a, b) < 0 ==> TDiv(a, b) - 1 == a / b && TMod(a, b) + b == a % b
    ensures TMod(a, b) >= 0 ==> TDiv(a, b) == a / b && TMod(a, b) == a % b
  {
    TDivFacts(a, b);
    if TMod(a, b) < 0 {
      DivModOf(TDiv(a, b) - 1, b, TMod(a, b) + b);
    } else {
      DivModOf(TDiv(a, b), b, TMod(a, b));
    }
  }

  /** Every stride of a nested layout is at least 1. */
  lemma StepsPositive(sizes: seq<nat>, steps: seq<nat>)
    requires Nested(sizes, steps)
    ensures forall i :: 0 <= i < |steps| ==> steps[i] >= 1
  {
    var k := |steps| - 1;
    while k > 0
      invariant 0 <= k < |steps|
      invariant forall j :: k <= j < |steps| ==> steps[j] >= 1
    {
      MulLe(1, sizes[k], steps[k]);
      assert StepCovers(sizes, steps, k);
      k := k - 1;
    }
  }

  lemma {:induction false} DotAppend(x: seq<int>, v: int, t: seq<nat>)
    requires |t| == |x| + 1
    ensures Dot(x + [v], t) == Dot(x, t[..|x|]) + v * t[|x|]
  {
    if |x| > 0 {
      assert (x + [v])[1..] == x[1..] + [v];
      assert t[1..][..|x| - 1] == t[..|x|][1..];
      DotAppend(x[1..], v, t[1..]);
    }
  }

  /** The block size of the axes after the first. */
  function Inner(sizes: seq<nat>): nat
    requires |sizes| >= 1
  {
    Product(sizes[1..])
  }

  lemma InnerPositive(sizes: seq<nat>, steps: seq<nat>)
    requires Nested(sizes, steps)
    ensures Inner(sizes) > 0
    ensures |sizes| >= 2 ==> Nested(sizes[1..], steps[1..])
  {
    assert Positive(sizes[1..]) by {
      forall i | 0 <= i < |sizes| - 1 ensures sizes[1..][i] > 0 { assert sizes[1..][i] == sizes[i + 1]; }
    }
    ProductPositive(sizes[1..]);
    if |sizes| >= 2 {
      NestedTail(sizes, steps);
    }
  }

  /**
   * The offset of an arbitrary (possibly out-of-range) row-major position p:
   * the first index is floor(p / inner block), the rest addresses p mod the
   * inner block. It extends ElemOffset to all integers.
   */
  function OffsetOf(p: int, sizes: seq<nat>, steps: seq<nat>): int
    requires Nested(sizes, steps)
  {
    InnerPositive(sizes, steps);
    if |sizes| == 1 then p * steps[0]
    else (p / Inner(sizes)) * steps[0] + ElemOffset(p % Inner(sizes), sizes[1..], steps[1..])
  }

  lemma OffsetOfElem(k: nat, sizes: seq<nat>, steps: seq<nat>)
    requires Nested(sizes, steps)
    ensures OffsetOf(k, sizes, steps) == ElemOffset(k, sizes, steps)
  {
    InnerPositive(sizes, steps);
  }

  /** A multi-index whose trailing coordinates are in range sits at OffsetOf its position. */
  lemma {:induction false} DotIsOffsetOf(idx: seq<int>, sizes: seq<nat>, steps: seq<nat>)
    requires Nested(sizes, steps) && |idx| == |sizes|
    requires forall i :: 0 < i < |idx| ==> 0 <= idx[i] < sizes[i]
    ensures Dot(idx, steps) == OffsetOf(Lin(idx, sizes), sizes, steps)
  {
    InnerPositive(sizes, steps);
    if |sizes| == 1 {
      assert idx[1..] == [] && sizes[1..] == [] && steps[1..] == [];
    } else {
      var s, t, x := sizes[1..], steps[1..], idx[1..];
      assert InRange(x, s) by {
        forall i | 0 <= i < |s| ensures 0 <= x[i] < s[i] { assert s[i] == sizes[i + 1] && x[i] == idx[i + 1]; }
      }
      LinOffset(x, s, t);
      DivModOf(idx[0], Inner(sizes), Lin(x, s));
    }
  }

  lemma FloorDivMonotone(a: int, b: int, w: nat)
    requires w > 0 && a <= b
    ensures a / w <= b / w
  {
    if a / w > b / w {
      DivModOf(a / w, w, a % w);
      DivModOf(b / w, w, b % w);
      MulLe(b / w + 1, a / w, w);
    }
  }

  lemma SameFloorBlock(a: int, b: int, w: nat)
    requires w > 0 && a < b && a / w == b / w
    ensures a % w < b % w
  {
    DivModOf(a / w, w, a % w);
    DivModOf(b / w, w, b % w);
  }

  /** Positions and offsets are in the same order, for every integer position. */
  lemma OffsetOfMonotone(p1: int, p2: int, sizes: seq<nat>, steps: seq<nat>)
    requires Nested(sizes, steps) && p1 < p2
    ensures OffsetOf(p1, sizes, steps) < OffsetOf(p2, sizes, steps)
  {
    InnerPositive(sizes, steps);
    if |sizes| > 1 {
      var w, t0 := Inner(sizes), steps[0];
      var q1, r1, q2, r2 := p1 / w, p1 % w, p2 / w, p2 % w;
      var e1, e2 := ElemOffset(r1, sizes[1..], steps[1..]), ElemOffset(r2, sizes[1..], steps[1..]);
      assert OffsetOf(p1, sizes, steps) == q1 * t0 + e1;
      assert OffsetOf(p2, sizes, steps) == q2 * t0 + e2;
      FloorDivMonotone(p1, p2, w);
      if q1 == q2 {
        SameFloorBlock(p1, p2, w);
        OffsetMonotone(r1, r2, sizes[1..], steps[1..]);
      } else {
        OffsetBounds(r1, sizes[1..], steps[1..]);
        NestedOuterStep(sizes, steps);
        MulLe(q1 + 1, q2, t0);
        MulSucc(q1, t0);
        assert e1 < t0;
      }
    } else {
      StepsPositive(sizes, steps);
      MulLe(p1 + 1, p2, steps[0]);
      MulSucc(p1, steps[0]);
    }
  }

  /** With in-range trailing coordinates, the first coordinate is in range exactly when the position is. */
  lemma {:induction false} PosInRange(idx: seq<int>, sizes: seq<nat>)
    requires |idx| == |sizes| >= 1 && Positive(sizes)
    requires forall i :: 0 < i < |idx| ==> 0 <= idx[i] < sizes[i]
    ensures (0 <= idx[0] < sizes[0]) <==> (0 <= Lin(idx, sizes) < Product(sizes))
    ensures 0 <= idx[0] < sizes[0] ==> InRange(idx, sizes)
  {
    var w := Product(sizes[1..]);
    var s, x := sizes[1..], idx[1..];
    assert Positive(s) && InRange(x, s) by {
      forall i | 0 <= i < |s| ensures s[i] > 0 && 0 <= x[i] < s[i] {
        assert s[i] == sizes[i + 1] && x[i] == idx[i + 1];
      }
    }
    assert 0 <= Lin(x, s) < w by {
      ProductPositive(s);
      if |sizes| > 1 {
        LinOffset(x, s, seq(|s|, _ => 1));
      }
    }
    assert Lin(idx, sizes) == idx[0] * w + Lin(x, s) && Product(sizes) == sizes[0] * w;
    SplitRange(idx[0], Lin(x, s), sizes[0], w);
  }

  /** With 0 <= r < w, the digit q lies in [0, s0) exactly when q * w + r lies in [0, s0 * w). */
  lemma SplitRange(q: int, r: int, s0: nat, w: nat)
    requires w > 0 && 0 <= r < w
    ensures (0 <= q < s0) <==> (0 <= q * w + r < s0 * w)
  {
    if q < 0 {
      MulLe(q, -1, w);
    } else if q < s0 {
      MulLe(0, q, w);
      MulLe(q + 1, s0, w);
      MulSucc(q, w);
    } else {
      MulLe(s0, q, w);
    }
  }

  /** The element count of a rows x cols shape. */
  lemma Product2(m: nat, n: nat)
    ensures Product([m, n]) == m * n
  {
    assert [m, n][1..] == [n] && [n][1..] == [];
    assert Product([n]) == n * Product([]);
  }

  /** The row-major position and the offset of index (r, k) in a rank-2 layout whose last stride is 1. */
  lemma Index2(r: int, k: int, s0: nat, s1: nat, t0: nat)
    ensures Lin([r, k], [s0, s1]) == r * s1 + k
    ensures Dot([r, k], [t0, 1]) == r * t0 + k
  {
    assert [r, k][1..] == [k] && [s0, s1][1..] == [s1] && [t0, 1][1..] == [1];
    assert [k][1..] == [] && [s1][1..] == [] && [1][1..] == [];
    assert Product([s1]) == s1 * Product([]);
    assert Lin([k], [s1]) == k * Product([]) + Lin([], []);
    assert Dot([k], [1]) == k * 1 + Dot([], []);
  }

  lemma MulAssoc(a: int, b: int, c: int)
    ensures (a * b) * c == a * (b * c)
  {
  }

  /** The row-major position, the offset and the element count of a rank-1 index. */
  lemma Index1(x: int, s: nat, t: nat)
    ensures Lin([x], [s]) == x && Dot([x], [t]) == x * t && Product([s]) == s
  {
    assert [x][1..] == [] && [s][1..] == [] && [t][1..] == [];
    assert Product([s]) == s * Product([]);
    assert Lin([x], [s]) == x * Product([]) + Lin([], []);
    assert Dot([x], [t]) == x * t + Dot([], []);
  }
}
