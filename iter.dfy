// The strided random-access iterator. It walks the elements of a strided
// block in row-major order, keeping one index per axis and the current
// element offset, and moves by arbitrary distances with a carry per axis.

module Iter {
  import opened Errors
  import opened Shape

  /**
   * An iterator over a strided block of buf. A null buffer is the
   * default-constructed iterator whose pointer is null.
   */
  class MatIterator<T> {
    var sizes: seq<nat>
    var steps: seq<nat>
    var idx: seq<int>
    var buf: array?<T>
    var base: int
    var ptr: int

    /**
     * The index invariant: the pointer is base plus the dot product of the
     * index with the strides, and every coordinate but the first stays in
     * range. The first coordinate is unbounded: one past the end, or before
     * the beginning, is a legal position.
     */
    ghost predicate Valid()
      reads this
    {
      |sizes| == |steps| == |idx| >= 1 &&
      (buf != null ==> Layout(sizes, steps, base, buf.Length) && Placed(sizes, steps, base, idx, ptr))
    }

    /** The row-major position of the iterator. */
    ghost function Pos(): int
      reads this
      requires |idx| == |sizes|
    {
      Lin(idx, sizes)
    }

    /** The element at row-major position p of the block the iterator walks. */
    ghost function Element(p: int): T
      reads this, buf
      requires Valid() && buf != null && 0 <= p < Product(sizes)
    {
      ElementAt(buf, base, sizes, steps, p)
    }

    /** The default iterator: its pointer is null and every use of it is refused. */
    constructor Null(dim: nat)
      requires dim >= 1
      ensures Valid() && buf == null && |sizes| == dim
    {
      sizes, steps, idx := seq(dim, _ => 1), seq(dim, _ => 1), seq(dim, _ => 0);
      buf, base, ptr := null, 0, 0;
    }

    /**
     * The iterator at pointer ptr over the block that starts at base. The
     * offset is split into a floor quotient by the first stride and then,
     * axis by axis, into truncating quotients by the remaining strides.
     */
    constructor (buf: array<T>, base: int, ptr: int, sizes: seq<nat>, steps: seq<nat>)
      requires Nested(sizes, steps) && 0 <= base && base + MaxOffset(sizes, steps) < buf.Length
      ensures this.buf == buf && this.base == base && this.ptr == ptr
      ensures this.sizes == sizes && this.steps == steps
      ensures |idx| == |sizes| && ptr == base + Dot(idx, steps)
      ensures steps[0] > 0 && idx[0] == (ptr - base) / steps[0]
      ensures forall i :: 0 < i < |idx| ==> idx[i] >= 0
      ensures IsContiguous(sizes, steps) ==> Valid()
      ensures (ptr - base) % steps[0] == 0 ==>
                (Valid() && idx == [(ptr - base) / steps[0]] + seq(|sizes| - 1, _ => 0))
    {
      StepsPositive(sizes, steps);
      var ix := Decompose(ptr - base, sizes, steps);
      this.sizes := sizes;
      this.steps := steps;
      this.buf := buf;
      this.base := base;
      this.ptr := ptr;
      idx := ix;
    }

    /** The copy constructor. */
    constructor Copy(it: MatIterator<T>)
      requires it.Valid()
      ensures Valid()
      ensures sizes == it.sizes && steps == it.steps && idx == it.idx
      ensures buf == it.buf && base == it.base && ptr == it.ptr
    {
      sizes, steps, idx := it.sizes, it.steps, it.idx;
      buf, base, ptr := it.buf, it.base, it.ptr;
    }

    /**
     * Moves the iterator by diff positions in row-major order. The last axis
     * takes the truncated remainder of diff, corrected by one size and a
     * carry when it leaves its range; the quotient plus carry travels on to
     * the next axis, and whatever reaches the first axis is added to it.
     */
    method MovePtr(diff: int) returns (o: Outcome)
      requires Valid()
      modifies this
      ensures Valid()
      ensures sizes == old(sizes) && steps == old(steps) && buf == old(buf) && base == old(base)
      ensures buf == null ==> o == Fail(LogicError) && idx == old(idx) && ptr == old(ptr)
      ensures buf != null ==> o == Pass && Pos() == old(Pos()) + diff
      ensures buf != null && |sizes| == 1 ==>
                (idx == [old(idx[0]) + diff] && ptr == old(ptr) + diff * steps[0])
    {
      if buf == null {
        return Fail(LogicError);
      }
      if |sizes| == 1 {
        DotUpdate(idx, steps, 0, idx[0] + diff);
        LinUpdate(idx, sizes, 0, idx[0] + diff);
        ptr := ptr + diff * steps[0];
        idx := idx[0 := idx[0] + diff];
        return Pass;
      }
      CarryMove(diff);
      return Pass;
    }

    /**
     * The Dim > 1 branch of MovePtr: the carry loop from the last axis down
     * to axis 1. The loop stops as soon as nothing is left to carry; the
     * source returns at that point, and the final update of axis 0 below then
     * adds zero, so the two are the same.
     */
    method CarryMove(diff: int)
      requires Valid() && buf != null && |sizes| >= 2
      modifies this
      ensures Valid()
      ensures sizes == old(sizes) && steps == old(steps) && buf == old(buf) && base == old(base)
      ensures Pos() == old(Pos()) + diff
    {
      ghost var target := Pos() + diff;
      var ix, p := idx, ptr;
      var d := diff;
      var carry := 0;
      var i := |sizes| - 1;
      assert sizes[i + 1..] == [];
      while i > 0 && d != 0
        invariant 0 <= i < |sizes|
        invariant Placed(sizes, steps, base, ix, p)
        invariant unchanged(this)
        invariant Lin(ix, sizes) + d * Product(sizes[i + 1..]) == target
        invariant carry == 0
      {
        var siz: int := sizes[i];
        var step: int := steps[i];
        TruncSplit(d, siz);
        var cur := TMod(d, siz);
        p := p - step * ix[i];
        var v := ix[i] + cur;
        if v < 0 {
          v := v + siz;
          carry := -1;
        }
        if v >= siz {
          v := v - siz;
          carry := 1;
        }
        CarryKeeps(sizes, steps, base, ix, p + step * ix[i], i, d, cur, carry, v, target);
        ix := ix[i := v];
        p := p + step * ix[i];
        d := TDiv(d, siz) + carry;
        carry := 0;
        i := i - 1;
      }
      DotUpdate(ix, steps, 0, ix[0] + d);
      LinUpdate(ix, sizes, 0, ix[0] + d);
      p := p + d * steps[0];
      ix := ix[0 := ix[0] + d];
      idx, ptr := ix, p;
    }

    /** The element the iterator points at; only the first coordinate is range-checked. */
    function Deref(): (r: Result<T>)
      reads this, buf
      requires Valid()
      ensures buf == null ==> r == Failure(LogicError)
      ensures buf != null ==> (r.Success? <==> 0 <= Pos() < Product(sizes))
      ensures buf != null && r.Failure? ==> r.error == OutOfRange
      ensures r.Success? ==> 0 <= ptr < buf.Length && ptr - base == ElemOffset(Pos(), sizes, steps)
      ensures r.Success? ==> r.value == buf[ptr] == Element(Pos())
    {
      if buf == null then Failure(LogicError)
      else
        PosInRange(idx, sizes);
        if idx[0] < 0 || idx[0] >= sizes[0] then Failure(OutOfRange)
        else
          LinOffset(idx, sizes, steps);
          OffsetBounds(Pos(), sizes, steps);
          Success(buf[ptr])
    }

    /** Writes v through the iterator (*it = v), with the checks of dereference. */
    method Store(v: T) returns (o: Outcome)
      requires Valid()
      modifies buf
      ensures o == Pass <==> Deref().Success?
      ensures o.Fail? ==> Failure(o.error) == Deref()
      ensures o == Pass ==> buf[..] == old(buf[..])[ptr := v]
      ensures o.Fail? && buf != null ==> buf[..] == old(buf[..])
    {
      var r := Deref();
      if r.Failure? {
        return Fail(r.error);
      }
      buf[ptr] := v;
      return Pass;
    }

    /** Prefix ++ as written: it moves the iterator and returns the state before the move. */
    method PreIncrement() returns (r: Result<MatIterator<T>>)
      requires Valid()
      modifies this
      ensures Valid() && sizes == old(sizes) && steps == old(steps) && buf == old(buf) && base == old(base)
      ensures buf == null <==> r.Failure?
      ensures r.Failure? ==> r.error == LogicError && idx == old(idx) && ptr == old(ptr)
      ensures r.Success? ==> Pos() == old(Pos()) + 1
      ensures r.Success? ==>
                (fresh(r.value) && r.value.Valid() && r.value.idx == old(idx) && r.value.ptr == old(ptr) &&
                 r.value.sizes == sizes && r.value.steps == steps && r.value.buf == buf && r.value.base == base)
    {
      var res := new MatIterator.Copy(this);
      var o := MovePtr(1);
      if o.Fail? {
        return Failure(o.error);
      }
      return Success(res);
    }

    /** Postfix ++ as written: it moves the iterator and returns the iterator itself. */
    method PostIncrement() returns (o: Outcome)
      requires Valid()
      modifies this
      ensures Valid() && sizes == old(sizes) && steps == old(steps) && buf == old(buf) && base == old(base)
      ensures buf == null <==> o == Fail(LogicError)
      ensures buf != null ==> o == Pass && Pos() == old(Pos()) + 1
    {
      o := MovePtr(1);
    }

    /** Prefix -- as written: it moves back and returns the state before the move. */
    method PreDecrement() returns (r: Result<MatIterator<T>>)
      requires Valid()
      modifies this
      ensures Valid() && sizes == old(sizes) && steps == old(steps) && buf == old(buf) && base == old(base)
      ensures buf == null <==> r.Failure?
      ensures r.Failure? ==> r.error == LogicError && idx == old(idx) && ptr == old(ptr)
      ensures r.Success? ==> Pos() == old(Pos()) - 1
      ensures r.Success? ==>
                (fresh(r.value) && r.value.Valid() && r.value.idx == old(idx) && r.value.ptr == old(ptr) &&
                 r.value.sizes == sizes && r.value.steps == steps && r.value.buf == buf && r.value.base == base)
    {
      var res := new MatIterator.Copy(this);
      var o := MovePtr(-1);
      if o.Fail? {
        return Failure(o.error);
      }
      return Success(res);
    }

    /** Postfix -- as written: it moves back and returns the iterator itself. */
    method PostDecrement() returns (o: Outcome)
      requires Valid()
      modifies this
      ensures Valid() && sizes == old(sizes) && steps == old(steps) && buf == old(buf) && base == old(base)
      ensures buf == null <==> o == Fail(LogicError)
      ensures buf != null ==> o == Pass && Pos() == old(Pos()) - 1
    {
      o := MovePtr(-1);
    }

    /** it + k: a moved copy; the receiver is unchanged. */
    method Plus(k: int) returns (r: Result<MatIterator<T>>)
      requires Valid()
      ensures buf == null <==> r.Failure?
      ensures r.Failure? ==> r.error == LogicError
      ensures r.Success? ==>
                (fresh(r.value) && r.value.Valid() && r.value.Pos() == Pos() + k &&
                 r.value.sizes == sizes && r.value.steps == steps && r.value.buf == buf && r.value.base == base)
    {
      var res := new MatIterator.Copy(this);
      var o := res.MovePtr(k);
      if o.Fail? {
        return Failure(o.error);
      }
      return Success(res);
    }

    /** it - k: a copy moved back by k; the receiver is unchanged. */
    method Minus(k: int) returns (r: Result<MatIterator<T>>)
      requires Valid()
      ensures buf == null <==> r.Failure?
      ensures r.Failure? ==> r.error == LogicError
      ensures r.Success? ==>
                (fresh(r.value) && r.value.Valid() && r.value.Pos() == Pos() - k &&
                 r.value.sizes == sizes && r.value.steps == steps && r.value.buf == buf && r.value.base == base)
    {
      var res := new MatIterator.Copy(this);
      var o := res.MovePtr(-k);
      if o.Fail? {
        return Failure(o.error);
      }
      return Success(res);
    }

    /** it += k, in place. */
    method PlusAssign(k: int) returns (o: Outcome)
      requires Valid()
      modifies this
      ensures Valid() && sizes == old(sizes) && steps == old(steps) && buf == old(buf) && base == old(base)
      ensures buf == null <==> o == Fail(LogicError)
      ensures buf != null ==> Pos() == old(Pos()) + k
    {
      o := MovePtr(k);
    }

    /** it -= k, in place. */
    method MinusAssign(k: int) returns (o: Outcome)
      requires Valid()
      modifies this
      ensures Valid() && sizes == old(sizes) && steps == old(steps) && buf == old(buf) && base == old(base)
      ensures buf == null <==> o == Fail(LogicError)
      ensures buf != null ==> Pos() == old(Pos()) - k
    {
      o := MovePtr(-k);
    }

    /** it[k] = *(it + k). */
    method At(k: int) returns (r: Result<T>)
      requires Valid()
      ensures buf == null ==> r == Failure(LogicError)
      ensures buf != null ==> (r.Success? <==> 0 <= Pos() + k < Product(sizes))
      ensures buf != null && r.Failure? ==> r.error == OutOfRange
      ensures r.Success? ==> r.value == Element(Pos() + k)
    {
      var moved :- Plus(k);
      r := moved.Deref();
    }

    /**
     * it - other: the row-major distance, accumulated from the last axis with
     * a running block size; iterators over different blocks are refused.
     */
    method Difference(it: MatIterator<T>) returns (r: Result<int>)
      requires Valid() && it.Valid() && |it.idx| == |idx|
      ensures r.Failure? <==> (sizes != it.sizes || steps != it.steps || buf != it.buf || base != it.base)
      ensures r.Failure? ==> r.error == InvalidArgument
      ensures r.Success? ==> r.value == Pos() - it.Pos()
    {
      if sizes != it.sizes || steps != it.steps || buf != it.buf || base != it.base {
        return Failure(InvalidArgument);
      }
      var res := 0;
      var tot := 1;
      var i := |idx| - 1;
      assert idx[|idx|..] == [] && it.idx[|idx|..] == [] && sizes[|idx|..] == [];
      while i >= 0
        invariant -1 <= i < |idx|
        invariant tot == Product(sizes[i + 1..])
        invariant res == Lin(idx[i + 1..], sizes[i + 1..]) - Lin(it.idx[i + 1..], sizes[i + 1..])
      {
        var diff := idx[i] - it.idx[i];
        LinSuffix(idx, sizes, i);
        LinSuffix(it.idx, sizes, i);
        ProductStep(sizes, i);
        res := res + diff * tot;
        tot := tot * sizes[i];
        i := i - 1;
      }
      assert idx[0..] == idx && it.idx[0..] == it.idx && sizes[0..] == sizes;
      return Success(res);
    }

    /** The comparisons look at the raw pointer only. */
    predicate Less(it: MatIterator<T>)
      reads this, it
    {
      ptr < it.ptr
    }

    predicate LessEq(it: MatIterator<T>)
      reads this, it
    {
      ptr <= it.ptr
    }

    predicate Greater(it: MatIterator<T>)
      reads this, it
    {
      ptr > it.ptr
    }

    predicate GreaterEq(it: MatIterator<T>)
      reads this, it
    {
      ptr >= it.ptr
    }

    predicate Equal(it: MatIterator<T>)
      reads this, it
    {
      ptr == it.ptr
    }

    predicate NotEqual(it: MatIterator<T>)
      reads this, it
    {
      ptr != it.ptr
    }
  }

  /**
   * The index computation of the iterator constructor: the offset is split
   * into a floor quotient by the first stride (a truncating quotient with a
   * negative correction) and then, axis by axis, into truncating quotients
   * by the remaining strides.
   */
  method Decompose(offset: int, sizes: seq<nat>, steps: seq<nat>) returns (ix: seq<int>)
    requires Nested(sizes, steps)
    ensures |ix| == |sizes| && offset == Dot(ix, steps)
    ensures steps[0] > 0 && ix[0] == offset / steps[0]
    ensures forall i :: 0 < i < |ix| ==> ix[i] >= 0
    ensures IsContiguous(sizes, steps) ==> forall i :: 0 < i < |ix| ==> ix[i] < sizes[i]
    ensures offset % steps[0] == 0 ==> ix == [offset / steps[0]] + seq(|sizes| - 1, _ => 0)
  {
    StepsPositive(sizes, steps);
    var diff := offset;
    var t0: int := steps[0];
    var i0 := TDiv(diff, t0);
    diff := TMod(diff, t0);
    FloorFromTrunc(offset, t0);
    if diff < 0 {
      diff := diff + t0;
      i0 := i0 - 1;
    }
    ix := [i0];
    assert Dot(ix, steps[..1]) == i0 * t0 by {
      assert ix[1..] == [] && steps[..1][1..] == [];
    }
    var i := 1;
    while i < |sizes|
      invariant 1 <= i <= |sizes| && i == |ix|
      invariant Decomposing(offset, sizes, steps, ix, diff, i0)
    {
      DecomposeStep(offset, sizes, steps, ix, diff, i0);
      var s: int := steps[i];
      var q := TDiv(diff, s);
      diff := TMod(diff, s);
      ix := ix + [q];
      i := i + 1;
    }
    assert steps[..|sizes|] == steps;
    if offset % t0 == 0 {
      assert ix == [i0] + seq(|sizes| - 1, _ => 0);
    }
  }

  /** The loop state of Decompose after the first |ix| axes. */
  ghost predicate Decomposing(offset: int, sizes: seq<nat>, steps: seq<nat>, ix: seq<int>, diff: int, i0: int)
  {
    Nested(sizes, steps) && 1 <= |ix| <= |sizes| && ix[0] == i0 && steps[0] > 0 &&
    0 <= diff < steps[|ix| - 1] &&
    offset == Dot(ix, steps[..|ix|]) + diff &&
    (forall j :: 1 <= j < |ix| ==> ix[j] >= 0) &&
    (IsContiguous(sizes, steps) ==> forall j :: 1 <= j < |ix| ==> ix[j] < sizes[j]) &&
    (offset % steps[0] == 0 ==> diff == 0 && forall j :: 1 <= j < |ix| ==> ix[j] == 0)
  }

  lemma DecomposeStep(offset: int, sizes: seq<nat>, steps: seq<nat>, ix: seq<int>, diff: int, i0: int)
    requires Decomposing(offset, sizes, steps, ix, diff, i0) && |ix| < |sizes|
    ensures steps[|ix|] > 0
    ensures Decomposing(offset, sizes, steps, ix + [TDiv(diff, steps[|ix|])], TMod(diff, steps[|ix|]), i0)
  {
    var i := |ix|;
    StepsPositive(sizes, steps);
    var s: int := steps[i];
    TDivFacts(diff, s);
    var q := TDiv(diff, s);
    assert 0 <= q && q * s <= diff;
    if IsContiguous(sizes, steps) {
      assert StepIsBlock(sizes, steps, i);
      FirstIndexBelow(diff, sizes[i], s);
    }
    DotAppend(ix, q, steps[..i + 1]);
    assert steps[..i + 1][..i] == steps[..i];
  }

  /** The block the iterator walks lies inside a buffer of that length. */
  ghost predicate Layout(sizes: seq<nat>, steps: seq<nat>, base: int, length: int)
  {
    Nested(sizes, steps) && 0 <= base && base + MaxOffset(sizes, steps) < length
  }

  /** The element at row-major position p of the block of buf that starts at base. */
  ghost function ElementAt<T>(buf: array<T>, base: int, sizes: seq<nat>, steps: seq<nat>, p: int): T
    reads buf
    requires Layout(sizes, steps, base, buf.Length) && 0 <= p < Product(sizes)
  {
    OffsetBounds(p, sizes, steps);
    buf[base + ElemOffset(p, sizes, steps)]
  }

  /** The part of the iterator invariant that the moves maintain. */
  ghost predicate Placed(sizes: seq<nat>, steps: seq<nat>, base: int, idx: seq<int>, ptr: int)
  {
    |sizes| == |steps| == |idx| &&
    (forall i :: 0 < i < |idx| ==> 0 <= idx[i] < sizes[i]) &&
    ptr == base + Dot(idx, steps)
  }

  /** Setting a trailing coordinate to an in-range value moves the pointer by the change times the stride. */
  lemma AxisStep(sizes: seq<nat>, steps: seq<nat>, base: int, idx: seq<int>, ptr: int, i: nat, v: int)
    requires Placed(sizes, steps, base, idx, ptr) && 0 < i < |idx| && 0 <= v < sizes[i]
    ensures Placed(sizes, steps, base, idx[i := v], ptr - steps[i] * idx[i] + steps[i] * v)
    ensures Lin(idx[i := v], sizes) == Lin(idx, sizes) + (v - idx[i]) * Product(sizes[i + 1..])
  {
    DotUpdate(idx, steps, i, v);
    LinUpdate(idx, sizes, i, v);
  }

  /** One pass of the carry loop keeps the iterator placed and the pending distance conserved. */
  lemma CarryKeeps(sizes: seq<nat>, steps: seq<nat>, base: int, ix: seq<int>, p: int, i: nat,
                   d: int, cur: int, carry: int, v: int, target: int)
    requires Placed(sizes, steps, base, ix, p) && 0 < i < |ix| && sizes[i] > 0
    requires d == TDiv(d, sizes[i]) * sizes[i] + cur
    requires 0 <= v < sizes[i] && v == ix[i] + cur - carry * sizes[i]
    requires Lin(ix, sizes) + d * Product(sizes[i + 1..]) == target
    ensures Placed(sizes, steps, base, ix[i := v], p - steps[i] * ix[i] + steps[i] * v)
    ensures Lin(ix[i := v], sizes) + (TDiv(d, sizes[i]) + carry) * Product(sizes[i..]) == target
  {
    AxisStep(sizes, steps, base, ix, p, i, v);
    ProductStep(sizes, i);
    CarryStep(Lin(ix, sizes), d, Product(sizes[i + 1..]), sizes[i], cur, TDiv(d, sizes[i]), carry, v - ix[i]);
  }

  /** The bookkeeping of one carry step: the pending distance is conserved. */
  lemma CarryStep(pos: int, d: int, w: int, siz: int, cur: int, q: int, c: int, delta: int)
    requires d == q * siz + cur && delta == cur - c * siz
    ensures pos + delta * w + (q + c) * (siz * w) == pos + d * w
  {
    calc {
      delta * w + (q + c) * (siz * w);
      (cur - c * siz) * w + q * siz * w + c * siz * w;
      cur * w + q * siz * w;
      (q * siz + cur) * w;
    }
  }

  lemma LinSuffix(idx: seq<int>, sizes: seq<nat>, i: nat)
    requires |idx| == |sizes| && i < |idx|
    ensures Lin(idx[i..], sizes[i..]) == idx[i] * Product(sizes[i + 1..]) + Lin(idx[i + 1..], sizes[i + 1..])
  {
    assert idx[i..][1..] == idx[i + 1..] && sizes[i..][1..] == sizes[i + 1..];
  }

  /**
   * For two valid iterators over the same block, comparing pointers is
   * comparing row-major positions, for every position, in range or not.
   */
  lemma PointerOrderIsPositionOrder<T>(a: MatIterator<T>, b: MatIterator<T>)
    requires a.Valid() && b.Valid() && a.buf != null
    requires a.sizes == b.sizes && a.steps == b.steps && a.buf == b.buf && a.base == b.base
    ensures a.Less(b) <==> a.Pos() < b.Pos()
    ensures a.Equal(b) <==> a.Pos() == b.Pos()
    ensures a.LessEq(b) <==> a.Pos() <= b.Pos()
    ensures a.Greater(b) <==> a.Pos() > b.Pos()
    ensures a.GreaterEq(b) <==> a.Pos() >= b.Pos()
    ensures a.NotEqual(b) <==> a.Pos() != b.Pos()
  {
    DotIsOffsetOf(a.idx, a.sizes, a.steps);
    DotIsOffsetOf(b.idx, b.sizes, b.steps);
    if a.Pos() < b.Pos() {
      OffsetOfMonotone(a.Pos(), b.Pos(), a.sizes, a.steps);
    } else if b.Pos() < a.Pos() {
      OffsetOfMonotone(b.Pos(), a.Pos(), a.sizes, a.steps);
    }
  }
}
