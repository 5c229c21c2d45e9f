// The loops the operators and reductions are built from: std::transform,
// std::copy_n and std::fill_n as the kernels call them, the element
// comparison loop of operator ==, the accumulation loop and the in-place
// apply loop. Each walks a first/last pair of iterators. A raw pointer
// into a continuous matrix is an iterator over the one-axis block of its
// elements with stride 1: it moves, compares and dereferences exactly as
// the pointer does.

module Algo {
  import opened Errors
  import opened Shape
  import opened Iter
  import opened Blocks
  import opened Seqs

  /** it walks a block whose row-major element sequence is xs. */
  ghost predicate Walks<T>(it: MatIterator<T>, xs: seq<T>)
    reads it, it.buf
  {
    it.Valid() && it.buf != null && Gather(it.buf, it.base, it.sizes, it.steps) == xs
  }

  /** last is the end iterator of the block first walks. */
  ghost predicate Ends<T>(first: MatIterator<T>, last: MatIterator<T>)
    reads first, last
  {
    last.Valid() && first.buf == last.buf && first.base == last.base &&
    first.sizes == last.sizes && first.steps == last.steps && last.Pos() == Product(first.sizes)
  }

  /** it is still over the block it was over on entry. */
  twostate predicate SameBlock<T>(it: MatIterator<T>)
    reads it
  {
    it.buf == old(it.buf) && it.base == old(it.base) && it.sizes == old(it.sizes) && it.steps == old(it.steps)
  }

  /** A contiguous block covers exactly the positions start .. start + Product(sizes) - 1. */
  lemma ContiguousFootprint(start: int, sizes: seq<nat>, steps: seq<nat>, q: int)
    requires |sizes| == |steps| >= 1 && Positive(sizes) && IsContiguous(sizes, steps)
    ensures Nested(sizes, steps)
    ensures q in Footprint(start, sizes, steps) <==> start <= q < start + Product(sizes)
  {
    ContiguousIsNested(sizes, steps);
    if start <= q < start + Product(sizes) {
      ContiguousOffset(q - start, sizes, steps);
      assert q == start + ElemOffset(q - start, sizes, steps);
    }
    if q in Footprint(start, sizes, steps) {
      var k :| 0 <= k < Product(sizes) && q == start + ElemOffset(k, sizes, steps);
      ContiguousOffset(k, sizes, steps);
    }
  }

  /**
   * The pointers raw_begin() and raw_end() over a run of n elements from
   * start: iterators over the block [n] with stride 1, at positions 0 and n.
   */
  method RawRange<T>(buf: array<T>, start: nat, n: nat) returns (first: MatIterator<T>, last: MatIterator<T>)
    requires n >= 1 && start + n <= buf.Length
    ensures fresh(first) && fresh(last)
    ensures Walks(first, buf[start..start + n]) && first.Pos() == 0 && Ends(first, last)
    ensures first.buf == buf && first.base == start && first.ptr == start && last.ptr == start + n
    ensures first.sizes == [n] && first.steps == [1]
  {
    assert IsContiguous([n], [1]);
    ContiguousLayout([n], [1], start, buf.Length);
    first := new MatIterator(buf, start, start, [n], [1]);
    last := new MatIterator(buf, start, start + n, [n], [1]);
    Index1(0, n, 1);
    Index1(n, n, 1);
    assert first.idx == [0] + seq(0, _ => 0) == [0];
    assert last.idx == [n] + seq(0, _ => 0) == [n];
    ContiguousGather(buf, start, [n], [1]);
  }

  /**
   * std::transform(first1, last1, first2, d_first, f): dst[d + k] becomes
   * f of the k-th elements of both blocks, for every element of the first
   * block; nothing else in dst changes.
   */
  method Transform2<A, B, R>(first1: MatIterator<A>, last1: MatIterator<A>, first2: MatIterator<B>,
                             dst: array<R>, d: nat, f: (A, B) -> R, ghost xs: seq<A>, ghost ys: seq<B>)
    requires Walks(first1, xs) && first1.Pos() == 0 && Ends(first1, last1) && first1 != last1
    requires Walks(first2, ys) && first2.Pos() == 0 && |xs| <= |ys|
    requires first1 as object != first2 as object && last1 as object != first2 as object
    requires dst as object != first1.buf as object && dst as object != first2.buf as object
    requires d + |xs| <= dst.Length
    modifies first1, first2, dst
    ensures forall p :: d <= p < d + |xs| ==> dst[p] == f(xs[p - d], ys[p - d])
    ensures forall p :: 0 <= p < dst.Length && !(d <= p < d + |xs|) ==> dst[p] == old(dst[p])
  {
    var o := d;
    PointerOrderIsPositionOrder(first1, last1);
    while first1.NotEqual(last1)
      invariant first1.Valid() && SameBlock(first1) && first2.Valid() && SameBlock(first2)
      invariant 0 <= first1.Pos() == first2.Pos() == o - d <= |xs|
      invariant first1.NotEqual(last1) <==> first1.Pos() != |xs|
      invariant forall p :: d <= p < o ==> dst[p] == f(xs[p - d], ys[p - d])
      invariant forall p :: 0 <= p < dst.Length && !(d <= p < o) ==> dst[p] == old(dst[p])
      decreases |xs| - first1.Pos()
    {
      var x := first1.Deref();
      var y := first2.Deref();
      dst[o] := f(x.value, y.value);
      var _ := first1.PreIncrement();
      var _ := first2.PreIncrement();
      o := o + 1;
      PointerOrderIsPositionOrder(first1, last1);
    }
  }

  /** std::transform(first, last, d_first, f): the unary form. */
  method Transform1<A, R>(first: MatIterator<A>, last: MatIterator<A>, dst: array<R>, d: nat,
                          f: A -> R, ghost xs: seq<A>)
    requires Walks(first, xs) && first.Pos() == 0 && Ends(first, last) && first != last
    requires dst as object != first.buf as object
    requires d + |xs| <= dst.Length
    modifies first, dst
    ensures forall p :: d <= p < d + |xs| ==> dst[p] == f(xs[p - d])
    ensures forall p :: 0 <= p < dst.Length && !(d <= p < d + |xs|) ==> dst[p] == old(dst[p])
  {
    var o := d;
    PointerOrderIsPositionOrder(first, last);
    while first.NotEqual(last)
      invariant first.Valid() && SameBlock(first)
      invariant 0 <= first.Pos() == o - d <= |xs|
      invariant first.NotEqual(last) <==> first.Pos() != |xs|
      invariant forall p :: d <= p < o ==> dst[p] == f(xs[p - d])
      invariant forall p :: 0 <= p < dst.Length && !(d <= p < o) ==> dst[p] == old(dst[p])
      decreases |xs| - first.Pos()
    {
      var x := first.Deref();
      dst[o] := f(x.value);
      var _ := first.PreIncrement();
      o := o + 1;
      PointerOrderIsPositionOrder(first, last);
    }
  }

  /**
   * _Mat_cmp_n(st1, end, st2): walks both blocks together and stops at the
   * first pair of unequal elements; true exactly when there is none.
   */
  method CmpN<T(==)>(st1: MatIterator<T>, end: MatIterator<T>, st2: MatIterator<T>, ghost xs: seq<T>, ghost ys: seq<T>)
    returns (r: bool)
    requires Walks(st1, xs) && st1.Pos() == 0 && Ends(st1, end) && st1 != end
    requires Walks(st2, ys) && st2.Pos() == 0 && |xs| <= |ys| && st1 != st2 && end != st2
    modifies st1, st2
    ensures r <==> forall k :: 0 <= k < |xs| ==> xs[k] == ys[k]
  {
    PointerOrderIsPositionOrder(st1, end);
    while st1.NotEqual(end)
      invariant st1.Valid() && SameBlock(st1) && st2.Valid() && SameBlock(st2)
      invariant 0 <= st1.Pos() == st2.Pos() <= |xs|
      invariant st1.NotEqual(end) <==> st1.Pos() != |xs|
      invariant forall k :: 0 <= k < st1.Pos() ==> xs[k] == ys[k]
      decreases |xs| - st1.Pos()
    {
      var x := st1.Deref();
      var y := st2.Deref();
      assert x.value == xs[st1.Pos()] && y.value == ys[st2.Pos()];
      if x.value != y.value {
        return false;
      }
      var _ := st1.PreIncrement();
      var _ := st2.PreIncrement();
      PointerOrderIsPositionOrder(st1, end);
    }
    return true;
  }

  /**
   * std::copy_n(first, n, d_first) onto a whole destination block: the
   * destination's elements become the first n source elements; no
   * position outside the destination block changes. Source and
   * destination may share a buffer when their blocks do not overlap or
   * are the same block (each element is then assigned to itself).
   */
  method CopyN<T>(first: MatIterator<T>, n: nat, dfirst: MatIterator<T>, ghost xs: seq<T>)
    requires Walks(first, xs) && first.Pos() == 0 && n <= |xs|
    requires dfirst.Valid() && dfirst.buf != null && dfirst.Pos() == 0 && n == Product(dfirst.sizes)
    requires first != dfirst
    requires first.buf == dfirst.buf ==>
               SameBlockAs(first, dfirst) ||
               Footprint(first.base, first.sizes, first.steps) !! Footprint(dfirst.base, dfirst.sizes, dfirst.steps)
    modifies first, dfirst, dfirst.buf
    ensures dfirst.Valid() && SameBlock(dfirst)
    ensures Gather(dfirst.buf, dfirst.base, dfirst.sizes, dfirst.steps) == xs[..n]
    ensures forall q :: 0 <= q < dfirst.buf.Length && q !in Footprint(dfirst.base, dfirst.sizes, dfirst.steps) ==>
              dfirst.buf[q] == old(dfirst.buf[q])
  {
    var i := 0;
    while i < n
      invariant 0 <= i <= n
      invariant first.Valid() && SameBlock(first) && dfirst.Valid() && SameBlock(dfirst)
      invariant first.Pos() == i && dfirst.Pos() == i
      invariant forall k :: 0 <= k < i ==> ElementAt(dfirst.buf, dfirst.base, dfirst.sizes, dfirst.steps, k) == xs[k]
      invariant forall k :: i <= k < n ==> ElementAt(first.buf, first.base, first.sizes, first.steps, k) == xs[k]
      invariant forall q :: 0 <= q < dfirst.buf.Length && q !in Footprint(dfirst.base, dfirst.sizes, dfirst.steps) ==>
                  dfirst.buf[q] == old(dfirst.buf[q])
    {
      var x := first.Deref();
      label Before:
      StoreAt(dfirst, x.value, xs[..i]);
      forall k | i < k < n
        ensures ElementAt(first.buf, first.base, first.sizes, first.steps, k) == xs[k]
      {
        if !(first.buf == dfirst.buf && SameBlockAs(first, dfirst)) {
          SourceKept(first, dfirst, k);
        }
        assert ElementAt(first.buf, first.base, first.sizes, first.steps, k)
            == old@Before(ElementAt(first.buf, first.base, first.sizes, first.steps, k));
      }
      var _ := dfirst.PreIncrement();
      var _ := first.PreIncrement();
      i := i + 1;
    }
  }

  /** Both iterators walk the same block of their buffer. */
  ghost predicate SameBlockAs<T>(a: MatIterator<T>, b: MatIterator<T>)
    reads a, b
  {
    a.base == b.base && a.sizes == b.sizes && a.steps == b.steps
  }

  /** Element k of the source block sits outside the destination's footprint when the two share a buffer. */
  lemma SourceKept<T>(first: MatIterator<T>, dfirst: MatIterator<T>, k: nat)
    requires first.Valid() && first.buf != null && k < Product(first.sizes) && dfirst.Valid()
    requires first.buf == dfirst.buf ==>
               Footprint(first.base, first.sizes, first.steps) !! Footprint(dfirst.base, dfirst.sizes, dfirst.steps)
    ensures 0 <= first.base + ElemOffset(k, first.sizes, first.steps) < first.buf.Length
    ensures first.buf == dfirst.buf ==>
              first.base + ElemOffset(k, first.sizes, first.steps) !in Footprint(dfirst.base, dfirst.sizes, dfirst.steps)
  {
    OffsetBounds(k, first.sizes, first.steps);
    assert first.base + ElemOffset(k, first.sizes, first.steps) in Footprint(first.base, first.sizes, first.steps);
  }

  /** std::fill_n(d_first, n, val) onto a whole destination block. */
  method FillN<T>(dfirst: MatIterator<T>, n: nat, val: T)
    requires dfirst.Valid() && dfirst.buf != null && dfirst.Pos() == 0 && n == Product(dfirst.sizes)
    modifies dfirst, dfirst.buf
    ensures dfirst.Valid() && SameBlock(dfirst)
    ensures Gather(dfirst.buf, dfirst.base, dfirst.sizes, dfirst.steps) == seq(n, _ => val)
    ensures forall q :: 0 <= q < dfirst.buf.Length && q !in Footprint(dfirst.base, dfirst.sizes, dfirst.steps) ==>
              dfirst.buf[q] == old(dfirst.buf[q])
  {
    var i := 0;
    while i < n
      invariant 0 <= i <= n
      invariant dfirst.Valid() && SameBlock(dfirst) && dfirst.Pos() == i
      invariant forall k :: 0 <= k < i ==> ElementAt(dfirst.buf, dfirst.base, dfirst.sizes, dfirst.steps, k) == val
      invariant forall q :: 0 <= q < dfirst.buf.Length && q !in Footprint(dfirst.base, dfirst.sizes, dfirst.steps) ==>
                  dfirst.buf[q] == old(dfirst.buf[q])
    {
      StoreAt(dfirst, val, seq(i, _ => val));
      var _ := dfirst.PreIncrement();
      i := i + 1;
    }
  }

  /**
   * *it = v at the iterator's position i: element i of the block becomes
   * v, the elements before it keep their values, and the write lands
   * inside the block.
   */
  method StoreAt<T>(it: MatIterator<T>, v: T, ghost done: seq<T>)
    requires it.Valid() && it.buf != null && 0 <= it.Pos() < Product(it.sizes) && |done| == it.Pos()
    requires forall k :: 0 <= k < |done| ==> ElementAt(it.buf, it.base, it.sizes, it.steps, k) == done[k]
    modifies it.buf
    ensures ElementAt(it.buf, it.base, it.sizes, it.steps, it.Pos()) == v
    ensures forall k :: 0 <= k < |done| ==> ElementAt(it.buf, it.base, it.sizes, it.steps, k) == done[k]
    ensures forall k :: it.Pos() < k < Product(it.sizes) ==>
              ElementAt(it.buf, it.base, it.sizes, it.steps, k) == old(ElementAt(it.buf, it.base, it.sizes, it.steps, k))
    ensures forall q :: 0 <= q < it.buf.Length && q !in Footprint(it.base, it.sizes, it.steps) ==>
              it.buf[q] == old(it.buf[q])
  {
    ghost var i := it.Pos();
    assert it.ptr == it.base + ElemOffset(i, it.sizes, it.steps) by {
      var _ := it.Deref();
    }
    assert it.ptr in Footprint(it.base, it.sizes, it.steps);
    var _ := it.Store(v);
    forall k | 0 <= k < Product(it.sizes) && k != i
      ensures ElementAt(it.buf, it.base, it.sizes, it.steps, k) == old(ElementAt(it.buf, it.base, it.sizes, it.steps, k))
    {
      if k < i { OffsetMonotone(k, i, it.sizes, it.steps); } else { OffsetMonotone(i, k, it.sizes, it.steps); }
      OffsetBounds(k, it.sizes, it.steps);
    }
  }

  /**
   * The accumulation loop for (it = first; it != last; ++it) func(*it, res):
   * the fold of the remaining elements from the seed.
   */
  method AccumulateFrom<T, R>(first: MatIterator<T>, last: MatIterator<T>, step: (T, R) -> R, seed: R, ghost xs: seq<T>)
    returns (res: R)
    requires Walks(first, xs) && Ends(first, last) && first != last && 0 <= first.Pos() <= |xs|
    modifies first
    ensures res == Fold(step, seed, xs[old(first.Pos())..])
  {
    ghost var p0 := first.Pos();
    ghost var i := p0;
    res := seed;
    assert xs[p0..p0] == [];
    PointerOrderIsPositionOrder(first, last);
    while first.NotEqual(last)
      invariant first.Valid() && SameBlock(first) && first.Pos() == i
      invariant p0 <= i <= |xs|
      invariant first.NotEqual(last) <==> i != |xs|
      invariant res == Fold(step, seed, xs[p0..i])
      decreases |xs| - i
    {
      var x := first.Deref();
      assert x.value == xs[i];
      FoldSnocSlice(step, seed, xs, p0, i);
      res := step(x.value, res);
      var _ := first.PreIncrement();
      i := i + 1;
      PointerOrderIsPositionOrder(first, last);
    }
    assert xs[p0..i] == xs[p0..];
  }

  /** One more element of a slice is one more step of its fold. */
  lemma FoldSnocSlice<T, R>(step: (T, R) -> R, seed: R, xs: seq<T>, lo: nat, hi: nat)
    requires lo <= hi < |xs|
    ensures Fold(step, seed, xs[lo..hi + 1]) == step(xs[hi], Fold(step, seed, xs[lo..hi]))
  {
    assert xs[lo..hi + 1] == xs[lo..hi] + [xs[hi]];
    FoldSnoc(step, seed, xs[lo..hi], xs[hi]);
  }

  /**
   * The apply loop for (it = first; it != last; ++it) op(*it): every
   * element of the block is replaced by its image; no position outside
   * the block changes.
   */
  method ApplyEach<T>(first: MatIterator<T>, last: MatIterator<T>, op: T -> T, ghost xs: seq<T>)
    requires Walks(first, xs) && first.Pos() == 0 && Ends(first, last) && first != last
    modifies first, first.buf
    ensures first.Valid() && SameBlock(first)
    ensures Gather(first.buf, first.base, first.sizes, first.steps) == Map(xs, op)
    ensures forall q :: 0 <= q < first.buf.Length && q !in Footprint(first.base, first.sizes, first.steps) ==>
              first.buf[q] == old(first.buf[q])
  {
    PointerOrderIsPositionOrder(first, last);
    while first.NotEqual(last)
      invariant first.Valid() && SameBlock(first) && 0 <= first.Pos() <= |xs|
      invariant first.NotEqual(last) <==> first.Pos() != |xs|
      invariant forall k :: 0 <= k < first.Pos() ==> ElementAt(first.buf, first.base, first.sizes, first.steps, k) == op(xs[k])
      invariant forall k :: first.Pos() <= k < |xs| ==> ElementAt(first.buf, first.base, first.sizes, first.steps, k) == xs[k]
      invariant forall q :: 0 <= q < first.buf.Length && q !in Footprint(first.base, first.sizes, first.steps) ==>
                  first.buf[q] == old(first.buf[q])
      decreases |xs| - first.Pos()
    {
      ApplyStep(first, last, op, xs);
      PointerOrderIsPositionOrder(first, last);
    }
  }

  /** One turn of the apply loop: op(*it) at the current position, then ++it. */
  method ApplyStep<T>(first: MatIterator<T>, last: MatIterator<T>, op: T -> T, ghost xs: seq<T>)
    requires first.Valid() && first.buf != null && Ends(first, last) && first != last
    requires |xs| == Product(first.sizes) && 0 <= first.Pos() < |xs|
    requires forall k :: 0 <= k < first.Pos() ==> ElementAt(first.buf, first.base, first.sizes, first.steps, k) == op(xs[k])
    requires forall k :: first.Pos() <= k < |xs| ==> ElementAt(first.buf, first.base, first.sizes, first.steps, k) == xs[k]
    modifies first, first.buf
    ensures first.Valid() && SameBlock(first) && Ends(first, last) && first.Pos() == old(first.Pos()) + 1
    ensures forall k :: 0 <= k < first.Pos() ==> ElementAt(first.buf, first.base, first.sizes, first.steps, k) == op(xs[k])
    ensures forall k :: first.Pos() <= k < |xs| ==> ElementAt(first.buf, first.base, first.sizes, first.steps, k) == xs[k]
    ensures forall q :: 0 <= q < first.buf.Length && q !in Footprint(first.base, first.sizes, first.steps) ==>
              first.buf[q] == old(first.buf[q])
  {
    ghost var p := first.Pos();
    var x := first.Deref();
    StoreAt(first, op(x.value), Map(xs[..p], op));
    var _ := first.PreIncrement();
  }
}
