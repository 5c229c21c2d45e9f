// The operators of mat_ops.h: element-wise arithmetic and comparison
// between matrices of one shape or between a matrix and a scalar, the
// copy and fill assignments (<<=), equality, and the matrix products.
// Every operator checks that its operands are valid (logic_error) and of
// one shape (invalid_argument), allocates a fresh continuous result of
// value-initialised elements and fills it through mat_apply, which walks
// each operand by raw pointer when it is continuous and by iterator when
// it is not. A member operator receives its object as the first
// parameter. Arithmetic is on int; overflow is not modelled.

module Ops {
  import opened Errors
  import opened Shape
  import opened Iter
  import opened Blocks
  import opened Mat
  import opened Seqs
  import Simd
  import opened Algo
  import Gemm

  /** r is a fresh-shaped result: valid, continuous, from position 0, with the given extents and row-major strides. */
  ghost predicate Fresh<T(0)>(r: Matrix<T>, dim: nat, sizes: seq<nat>)
    reads r, r.raw
  {
    r.Valid() && r.buf != null && r.dim == dim && r.sizes == sizes && r.steps == RowMajorSteps(sizes) &&
    r.IsContinuous() && r.start == 0
  }

  /** A continuous matrix's buffer run is its element sequence. */
  lemma Run<T(0)>(m: Matrix<T>)
    requires m.Valid() && m.buf != null && m.IsContinuous()
    ensures m.start + Product(m.sizes) <= m.buf.Length && m.Elements() == m.buf[m.start..m.start + Product(m.sizes)]
  {
    ContiguousGather(m.buf, m.start, m.sizes, m.steps);
  }

  /** A continuous matrix whose run holds zs has the elements zs. */
  lemma RunIs<T(0)>(m: Matrix<T>, zs: seq<T>)
    requires m.Valid() && m.buf != null && m.IsContinuous() && |zs| == Product(m.sizes)
    requires m.start + |zs| <= m.buf.Length
    requires forall p :: m.start <= p < m.start + |zs| ==> m.buf[p] == zs[p - m.start]
    ensures m.Elements() == zs
  {
    Run(m);
    forall k | 0 <= k < |zs| ensures m.Elements()[k] == zs[k] {
      assert m.Elements()[k] == m.buf[m.start + k];
    }
  }

  /** raw_begin() and raw_end() of a continuous matrix. */
  method RawCursors<T(0)>(m: Matrix<T>) returns (first: MatIterator<T>, last: MatIterator<T>)
    requires m.Valid() && m.buf != null && m.IsContinuous()
    ensures fresh(first) && fresh(last) && first.buf == m.buf && first.base == m.start
    ensures first.sizes == [Product(m.sizes)] && first.steps == [1]
    ensures Walks(first, m.Elements()) && first.Pos() == 0 && Ends(first, last) && first != last
  {
    var n := m.Size();
    ProductPositive(m.sizes);
    Run(m);
    first, last := RawRange(m.buf, m.start, n);
  }

  /** begin() and end() of a matrix. */
  method IterCursors<T(0)>(m: Matrix<T>) returns (first: MatIterator<T>, last: MatIterator<T>)
    requires m.Valid() && m.buf != null
    ensures fresh(first) && fresh(last) && first.buf == m.buf && first.base == m.start
    ensures first.sizes == m.sizes && first.steps == m.steps
    ensures Walks(first, m.Elements()) && first.Pos() == 0 && Ends(first, last) && first != last
  {
    ProductPositive(m.sizes);
    first := m.Begin();
    last := m.End();
  }

  /** The cursor pair mat_apply and mat_cmp take for m: the raw pointers when it is continuous, the iterators otherwise. */
  method Cursors<T(0)>(m: Matrix<T>) returns (first: MatIterator<T>, last: MatIterator<T>)
    requires m.Valid() && m.buf != null
    ensures fresh(first) && fresh(last) && first.buf == m.buf && first.base == m.start
    ensures Walks(first, m.Elements()) && first.Pos() == 0 && Ends(first, last) && first != last
    ensures m.IsContinuous() ==> first.sizes == [Product(m.sizes)] && first.steps == [1]
    ensures !m.IsContinuous() ==> first.sizes == m.sizes && first.steps == m.steps
  {
    if m.IsContinuous() {
      first, last := RawCursors(m);
    } else {
      first, last := IterCursors(m);
    }
  }

  /**
   * The footprint of the cursors is the matrix's own: for a continuous
   * matrix the one-axis block [n] with stride 1 covers the same run.
   */
  lemma SameFootprint<T(0)>(m: Matrix<T>, sizes: seq<nat>, steps: seq<nat>, q: int)
    requires m.Valid() && m.buf != null
    requires m.IsContinuous() ==> sizes == [Product(m.sizes)] && steps == [1]
    requires !m.IsContinuous() ==> sizes == m.sizes && steps == m.steps
    ensures Nested(sizes, steps) && Nested(m.sizes, m.steps)
    ensures q in Footprint(m.start, sizes, steps) <==> q in Footprint(m.start, m.sizes, m.steps)
  {
    if m.IsContinuous() {
      ProductPositive(m.sizes);
      assert Product([Product(m.sizes)]) == Product(m.sizes) * Product([]);
      assert [Product(m.sizes)][1..] == [];
      assert IsContiguous(sizes, steps);
      ContiguousFootprint(m.start, sizes, steps, q);
      ContiguousFootprint(m.start, m.sizes, m.steps, q);
    }
  }

  /** For a continuous matrix, the one-axis block gathers the same elements. */
  lemma SameGather<T(0)>(m: Matrix<T>, sizes: seq<nat>, steps: seq<nat>)
    requires m.Valid() && m.buf != null
    requires m.IsContinuous() ==> sizes == [Product(m.sizes)] && steps == [1]
    requires !m.IsContinuous() ==> sizes == m.sizes && steps == m.steps
    ensures Layout(sizes, steps, m.start, m.buf.Length)
    ensures Gather(m.buf, m.start, sizes, steps) == m.Elements()
  {
    if m.IsContinuous() {
      ProductPositive(m.sizes);
      var n := Product(m.sizes);
      assert Product([n]) == n * Product([]);
      assert [n][1..] == [];
      assert IsContiguous(sizes, steps);
      Run(m);
      ContiguousLayout(sizes, steps, m.start, m.buf.Length);
      ContiguousGather(m.buf, m.start, sizes, steps);
    }
  }

  /** std::transform(first1, last1, first2, res.raw_begin(), f) into a continuous result. */
  method TransformInto<A, B, R(0)>(first1: MatIterator<A>, last1: MatIterator<A>, first2: MatIterator<B>,
                                   res: Matrix<R>, f: (A, B) -> R, ghost xs: seq<A>, ghost ys: seq<B>)
    requires Walks(first1, xs) && first1.Pos() == 0 && Ends(first1, last1) && first1 != last1
    requires Walks(first2, ys) && first2.Pos() == 0 && |xs| == |ys|
    requires first1 as object != first2 as object && last1 as object != first2 as object
    requires res.Valid() && res.buf != null && res.IsContinuous() && Product(res.sizes) == |xs|
    requires res.buf as object != first1.buf as object && res.buf as object != first2.buf as object
    modifies first1, first2, res.buf
    ensures res.Elements() == ZipWith(xs, ys, f)
    ensures forall q :: 0 <= q < res.buf.Length && !(res.start <= q < res.start + Product(res.sizes)) ==>
              res.buf[q] == old(res.buf[q])
  {
    Run(res);
    Transform2(first1, last1, first2, res.buf, res.start, f, xs, ys);
    RunIs(res, ZipWith(xs, ys, f));
  }

  /**
   * mat_apply(a, b, res, f): std::transform over both operands into
   * res.raw_begin(). The result's elements are f of the operands' elements,
   * position by position; nothing in res's buffer outside its run changes.
   */
  method MatApply2<A(0), B(0), R(0)>(a: Matrix<A>, b: Matrix<B>, res: Matrix<R>, f: (A, B) -> R)
    requires a.Valid() && a.buf != null && b.Valid() && b.buf != null && res.Valid() && res.buf != null
    requires b.sizes == a.sizes && res.sizes == a.sizes && res.IsContinuous()
    requires res.buf as object != a.buf as object && res.buf as object != b.buf as object
    modifies res.buf
    ensures res.Elements() == ZipWith(old(a.Elements()), old(b.Elements()), f)
    ensures forall q :: 0 <= q < res.buf.Length && !(res.start <= q < res.start + Product(res.sizes)) ==>
              res.buf[q] == old(res.buf[q])
  {
    ghost var xs, ys := a.Elements(), b.Elements();
    var first1, last1 := Cursors(a);
    var first2, _ := Cursors(b);
    TransformInto(first1, last1, first2, res, f, xs, ys);
  }

  /** mat_apply(a, res, f): std::transform over one operand into res.raw_begin(). */
  method MatApply1<A(0), R(0)>(a: Matrix<A>, res: Matrix<R>, f: A -> R)
    requires a.Valid() && a.buf != null && res.Valid() && res.buf != null
    requires res.sizes == a.sizes && res.IsContinuous() && res.buf as object != a.buf as object
    modifies res.buf
    ensures res.Elements() == Map(a.Elements(), f)
    ensures forall k :: 0 <= k < |a.Elements()| ==> res.Elements()[k] == f(a.Elements()[k])
    ensures forall q :: 0 <= q < res.buf.Length && !(res.start <= q < res.start + Product(res.sizes)) ==>
              res.buf[q] == old(res.buf[q])
  {
    ghost var xs := a.Elements();
    Run(res);
    var first, last := Cursors(a);
    Transform1(first, last, res.buf, res.start, f, xs);
    RunIs(res, Map(xs, f));
  }

  /** _Mat_cmp_n(st1, end, st2) over two walks of one length: whether they are equal. */
  method CmpRuns<T(==)>(st1: MatIterator<T>, end: MatIterator<T>, st2: MatIterator<T>, ghost xs: seq<T>, ghost ys: seq<T>)
    returns (r: bool)
    requires Walks(st1, xs) && st1.Pos() == 0 && Ends(st1, end) && st1 != end
    requires Walks(st2, ys) && st2.Pos() == 0 && |xs| == |ys| && st1 != st2 && end != st2
    modifies st1, st2
    ensures r <==> xs == ys
  {
    r := CmpN(st1, end, st2, xs, ys);
    if !r {
      ghost var k :| 0 <= k < |xs| && xs[k] != ys[k];
    }
  }

  /**
   * mat_cmp(a, b): _Mat_cmp_n over both operands; when only b is
   * continuous, b's raw pointers lead and a's iterator follows. True
   * exactly when the element sequences are equal.
   */
  method MatCmp<T(==, 0)>(a: Matrix<T>, b: Matrix<T>) returns (r: bool)
    requires a.Valid() && a.buf != null && b.Valid() && b.buf != null && b.sizes == a.sizes
    ensures r <==> a.Elements() == b.Elements()
  {
    if !a.IsContinuous() && b.IsContinuous() {
      r := CmpLeading(b, a);
    } else {
      r := CmpLeading(a, b);
    }
  }

  /**
   * One mat_cmp branch: the cursors of lead walk to its end, those of
   * other follow; each one's raw pointers when it is continuous.
   */
  method CmpLeading<T(==, 0)>(lead: Matrix<T>, other: Matrix<T>) returns (r: bool)
    requires lead.Valid() && lead.buf != null && other.Valid() && other.buf != null && other.sizes == lead.sizes
    ensures r <==> lead.Elements() == other.Elements()
  {
    var st1, end := Cursors(lead);
    var st2, _ := Cursors(other);
    r := CmpRuns(st1, end, st2, lead.Elements(), other.Elements());
  }

  /**
   * operator ==: logic_error on an invalid operand; false for different
   * extents; otherwise whether the elements are equal position by position.
   */
  method Equal<T(==, 0)>(a: Matrix<T>, b: Matrix<T>) returns (r: Result<bool>)
    requires a.Valid() && b.Valid() && b.dim == a.dim
    ensures !a.IsValid() || !b.IsValid() ==> r == Failure(LogicError)
    ensures a.IsValid() && b.IsValid() ==>
              r == Success(a.buf != null && b.buf != null && a.sizes == b.sizes && a.Elements() == b.Elements())
  {
    if !a.IsValid() || !b.IsValid() {
      return Failure(LogicError);
    }
    if a.sizes != b.sizes {
      return Success(false);
    }
    var same := MatCmp(a, b);
    return Success(same);
  }

  /** operator !=: the negation of ==, with the same logic_error. */
  method NotEqual<T(==, 0)>(a: Matrix<T>, b: Matrix<T>) returns (r: Result<bool>)
    requires a.Valid() && b.Valid() && b.dim == a.dim
    ensures !a.IsValid() || !b.IsValid() ==> r == Failure(LogicError)
    ensures a.IsValid() && b.IsValid() ==>
              r == Success(!(a.buf != null && b.buf != null && a.sizes == b.sizes && a.Elements() == b.Elements()))
  {
    var eq := Equal(a, b);
    if eq.Failure? {
      return Failure(eq.error);
    }
    return Success(!eq.value);
  }

  /**
   * operator <<=(mat): copies mat's elements into m's window in row-major
   * order (std::copy_n through the raw pointer or the iterator of each
   * side). logic_error when m is invalid, invalid_argument when the extents
   * differ. A source without storage (one moved from keeps its extents) is
   * read through begin() when it is not flagged continuous, and the
   * iterator's first use throws logic_error before anything is written; one
   * flagged continuous would be read through a null raw pointer, which is
   * undefined behaviour and is excluded. m's fields stay as they are and
   * nothing of its buffer outside its window changes.
   */
  method AssignFrom<T(0)>(m: Matrix<T>, mat: Matrix<T>) returns (o: Outcome)
    requires m.Valid() && mat.Valid() && mat.dim == m.dim
    requires m.IsValid() && m.sizes == mat.sizes && !mat.IsValid() ==> !mat.IsContinuous()
    requires m.IsValid() && mat.IsValid() && m.buf == mat.buf && m.sizes == mat.sizes ==> SharesSafely(m, mat)
    modifies m.buf
    ensures !m.IsValid() ==> o == Fail(LogicError)
    ensures m.IsValid() && m.sizes != mat.sizes ==> o == Fail(InvalidArgument)
    ensures m.IsValid() && m.sizes == mat.sizes && !mat.IsValid() ==> o == Fail(LogicError)
    ensures o.Pass? <==> m.IsValid() && m.sizes == mat.sizes && mat.IsValid()
    ensures m.Valid()
    ensures o.Fail? && m.buf != null ==> m.buf[..] == old(m.buf[..])
    ensures o.Pass? ==> m.buf != null && mat.buf != null && m.Elements() == old(mat.Elements())
    ensures o.Pass? ==> forall q :: 0 <= q < m.buf.Length && q !in Footprint(m.start, m.sizes, m.steps) ==>
                          m.buf[q] == old(m.buf[q])
  {
    if !m.IsValid() {
      return Fail(LogicError);
    }
    if m.sizes != mat.sizes {
      return Fail(InvalidArgument);
    }
    if !mat.IsValid() {
      return Fail(LogicError);
    }
    CopyInto(m, mat);
    return Pass;
  }

  /**
   * Two handles on one buffer that <<= can copy between: the same block
   * walked the same way (a self-copy), or blocks that do not overlap.
   */
  ghost predicate SharesSafely<T(0)>(m: Matrix<T>, mat: Matrix<T>)
    reads m, m.raw, mat, mat.raw
    requires m.Valid() && mat.Valid() && m.buf != null && mat.buf != null
  {
    (m.start == mat.start && m.sizes == mat.sizes && m.steps == mat.steps && m.IsContinuous() == mat.IsContinuous()) ||
    Footprint(m.start, m.sizes, m.steps) !! Footprint(mat.start, mat.sizes, mat.steps)
  }

  /** The cursors of two handles that share a buffer safely walk one block or disjoint blocks. */
  lemma SharedCursors<T(0)>(m: Matrix<T>, mat: Matrix<T>, dst: MatIterator<T>, src: MatIterator<T>)
    requires m.Valid() && mat.Valid() && m.buf != null && mat.buf != null && (m.buf == mat.buf ==> SharesSafely(m, mat))
    requires dst.buf == m.buf && dst.base == m.start && src.buf == mat.buf && src.base == mat.start
    requires m.IsContinuous() ==> dst.sizes == [Product(m.sizes)] && dst.steps == [1]
    requires !m.IsContinuous() ==> dst.sizes == m.sizes && dst.steps == m.steps
    requires mat.IsContinuous() ==> src.sizes == [Product(mat.sizes)] && src.steps == [1]
    requires !mat.IsContinuous() ==> src.sizes == mat.sizes && src.steps == mat.steps
    ensures Nested(dst.sizes, dst.steps) && Nested(src.sizes, src.steps)
    ensures src.buf == dst.buf ==>
              SameBlockAs(src, dst) ||
              Footprint(src.base, src.sizes, src.steps) !! Footprint(dst.base, dst.sizes, dst.steps)
  {
    SameFootprint(m, dst.sizes, dst.steps, 0);
    SameFootprint(mat, src.sizes, src.steps, 0);
    if m.buf == mat.buf && !(m.start == mat.start && m.sizes == mat.sizes && m.steps == mat.steps && m.IsContinuous() == mat.IsContinuous()) {
      forall q ensures q in Footprint(src.base, src.sizes, src.steps) <==> q in Footprint(mat.start, mat.sizes, mat.steps) {
        SameFootprint(mat, src.sizes, src.steps, q);
      }
      forall q ensures q in Footprint(dst.base, dst.sizes, dst.steps) <==> q in Footprint(m.start, m.sizes, m.steps) {
        SameFootprint(m, dst.sizes, dst.steps, q);
      }
    }
  }

  /** The copy_n of operator <<=(mat) once both sides are valid and of one shape. */
  method CopyInto<T(0)>(m: Matrix<T>, mat: Matrix<T>)
    requires m.Valid() && mat.Valid() && m.buf != null && mat.buf != null && m.sizes == mat.sizes
    requires m.buf == mat.buf ==> SharesSafely(m, mat)
    modifies m.buf
    ensures m.Valid() && m.Elements() == old(mat.Elements())
    ensures forall q :: 0 <= q < m.buf.Length && q !in Footprint(m.start, m.sizes, m.steps) ==>
              m.buf[q] == old(m.buf[q])
  {
    ghost var xs := mat.Elements();
    ghost var before := m.buf[..];
    var n := mat.Size();
    var src, dst := CopyCursors(m, mat);
    ghost var ds, dt := dst.sizes, dst.steps;
    CopyN(src, n, dst, xs);
    CopiedThrough(m, ds, dt, xs, before);
  }

  /** The source and target cursors <<= hands to copy_n. */
  method CopyCursors<T(0)>(m: Matrix<T>, mat: Matrix<T>) returns (src: MatIterator<T>, dst: MatIterator<T>)
    requires m.Valid() && mat.Valid() && m.buf != null && mat.buf != null && m.sizes == mat.sizes
    requires m.buf == mat.buf ==> SharesSafely(m, mat)
    ensures fresh(src) && fresh(dst) && src != dst
    ensures Walks(src, mat.Elements()) && src.Pos() == 0
    ensures dst.Valid() && dst.buf == m.buf && dst.base == m.start && dst.Pos() == 0
    ensures m.IsContinuous() ==> dst.sizes == [Product(m.sizes)] && dst.steps == [1]
    ensures !m.IsContinuous() ==> dst.sizes == m.sizes && dst.steps == m.steps
    ensures Product(dst.sizes) == Product(m.sizes) && Layout(dst.sizes, dst.steps, m.start, m.buf.Length)
    ensures src.buf == dst.buf ==>
              SameBlockAs(src, dst) ||
              Footprint(src.base, src.sizes, src.steps) !! Footprint(dst.base, dst.sizes, dst.steps)
  {
    var srcEnd, dstEnd;
    src, srcEnd := Cursors(mat);
    dst, dstEnd := Cursors(m);
    SharedCursors(m, mat, dst, src);
    SameGather(m, dst.sizes, dst.steps);
  }

  /** What copy_n through m's cursor leaves, restated on m's own layout. */
  lemma CopiedThrough<T(0)>(m: Matrix<T>, ds: seq<nat>, dt: seq<nat>, xs: seq<T>, before: seq<T>)
    requires m.Valid() && m.buf != null
    requires m.IsContinuous() ==> ds == [Product(m.sizes)] && dt == [1]
    requires !m.IsContinuous() ==> ds == m.sizes && dt == m.steps
    requires |before| == m.buf.Length && |xs| == Product(m.sizes) && Layout(ds, dt, m.start, m.buf.Length)
    requires Gather(m.buf, m.start, ds, dt) == xs[..Product(m.sizes)]
    requires forall q :: 0 <= q < m.buf.Length && q !in Footprint(m.start, ds, dt) ==> m.buf[q] == before[q]
    ensures m.Elements() == xs
    ensures forall q :: 0 <= q < m.buf.Length && q !in Footprint(m.start, m.sizes, m.steps) ==> m.buf[q] == before[q]
  {
    SameGather(m, ds, dt);
    assert xs[..Product(m.sizes)] == xs;
    forall q | 0 <= q < m.buf.Length && q !in Footprint(m.start, m.sizes, m.steps)
      ensures m.buf[q] == before[q]
    {
      SameFootprint(m, ds, dt, q);
    }
  }

  /**
   * operator <<=(val): std::fill_n of every element of m's window with
   * val; logic_error when m is invalid.
   */
  method Fill<T(0)>(m: Matrix<T>, val: T) returns (o: Outcome)
    requires m.Valid()
    modifies m.buf
    ensures o.Fail? <==> !m.IsValid()
    ensures o.Fail? ==> o.error == LogicError
    ensures m.Valid()
    ensures o.Pass? ==> m.buf != null && m.Elements() == seq(Product(m.sizes), _ => val)
    ensures o.Pass? ==> forall q :: 0 <= q < m.buf.Length && q !in Footprint(m.start, m.sizes, m.steps) ==>
                          m.buf[q] == old(m.buf[q])
  {
    if !m.IsValid() {
      return Fail(LogicError);
    }
    var n := m.Size();
    var dst, _ := Cursors(m);
    FillN(dst, n, val);
    SameGather(m, dst.sizes, dst.steps);
    forall q | 0 <= q < m.buf.Length && q !in Footprint(m.start, m.sizes, m.steps)
      ensures m.buf[q] == old(m.buf[q])
    {
      SameFootprint(m, dst.sizes, dst.steps, q);
    }
    return Pass;
  }

  // ---- Results and element-wise arithmetic ----

  /** res(sizes): a fresh matrix of the given extents whose elements are all zero. */
  method Alloc<T(0)>(dim: nat, sizes: seq<nat>, zero: T) returns (res: Matrix<T>)
    requires dim >= 1 && |sizes| == dim && Positive(sizes)
    ensures fresh(res) && fresh(res.buf) && Fresh(res, dim, sizes)
    ensures res.Elements() == seq(Product(sizes), _ => zero)
  {
    var r := NewMatrix(dim, sizes, zero);
    res := r.value;
  }

  /**
   * Element-wise results read cell by cell: when res holds the pairwise
   * images of the row-major elements of a and b (all of one shape), the
   * element at every multi-index p is the image of the two elements at p.
   */
  lemma ZipCells<A(0), B(0), R(0)>(a: Matrix<A>, b: Matrix<B>, res: Matrix<R>, f: (A, B) -> R, p: seq<int>)
    requires a.Valid() && a.buf != null && b.Valid() && b.buf != null && res.Valid() && res.buf != null
    requires a.sizes == b.sizes == res.sizes && InRange(p, a.sizes)
    requires res.Elements() == ZipWith(a.Elements(), b.Elements(), f)
    ensures res.Cell(p) == f(a.Cell(p), b.Cell(p))
  {
    a.CellIsElement(p);
    b.CellIsElement(p);
    res.CellIsElement(p);
  }

  /** How a binary operator checks its operands: logic_error, then invalid_argument for a shape mismatch. */
  ghost predicate Checked<T(0), U(0), R(0)>(a: Matrix<T>, b: Matrix<U>, r: Result<Matrix<R>>)
    reads a, b
  {
    (!a.IsValid() || !b.IsValid() ==> r == Failure(LogicError)) &&
    (a.IsValid() && b.IsValid() ==> (r.Failure? <==> a.sizes != b.sizes) && (r.Failure? ==> r.error == InvalidArgument))
  }

  /** How a matrix-scalar operator checks its operand. */
  ghost predicate CheckedOne<T(0), R(0)>(a: Matrix<T>, r: Result<Matrix<R>>)
    reads a
  {
    (r.Failure? <==> !a.IsValid()) && (r.Failure? ==> r.error == LogicError)
  }

  /** operator +(b): element-wise sum. */
  method Add(a: Matrix<int>, b: Matrix<int>) returns (r: Result<Matrix<int>>)
    requires a.Valid() && b.Valid() && b.dim == a.dim
    ensures Checked(a, b, r)
    ensures r.Success? ==> fresh(r.value) && fresh(r.value.buf) && Fresh(r.value, a.dim, a.sizes)
    ensures r.Success? ==> a.buf != null && b.buf != null &&
                           r.value.Elements() == ZipWith(a.Elements(), b.Elements(), Simd.Add)
  {
    if !a.IsValid() || !b.IsValid() {
      return Failure(LogicError);
    }
    if a.sizes != b.sizes {
      return Failure(InvalidArgument);
    }
    var res := Alloc(a.dim, a.sizes, 0);
    MatApply2(a, b, res, Simd.Add);
    return Success(res);
  }

  /** operator +(v): every element plus v. */
  method AddScalar(a: Matrix<int>, v: int) returns (r: Result<Matrix<int>>)
    requires a.Valid()
    ensures CheckedOne(a, r)
    ensures r.Success? ==> fresh(r.value) && fresh(r.value.buf) && Fresh(r.value, a.dim, a.sizes)
    ensures r.Success? ==> a.buf != null && forall k :: 0 <= k < |a.Elements()| ==> r.value.Elements()[k] == a.Elements()[k] + v
  {
    if !a.IsValid() {
      return Failure(LogicError);
    }
    var res := Alloc(a.dim, a.sizes, 0);
    MatApply1(a, res, x => x + v);
    return Success(res);
  }

  /** operator +(v, b): v plus every element. */
  method ScalarAdd(v: int, b: Matrix<int>) returns (r: Result<Matrix<int>>)
    requires b.Valid()
    ensures CheckedOne(b, r)
    ensures r.Success? ==> fresh(r.value) && fresh(r.value.buf) && Fresh(r.value, b.dim, b.sizes)
    ensures r.Success? ==> b.buf != null && forall k :: 0 <= k < |b.Elements()| ==> r.value.Elements()[k] == v + b.Elements()[k]
  {
    if !b.IsValid() {
      return Failure(LogicError);
    }
    var res := Alloc(b.dim, b.sizes, 0);
    MatApply1(b, res, x => v + x);
    return Success(res);
  }

  /** a, b and res are continuous matrices of one shape, and res has a buffer of its own. */
  ghost predicate Runs(a: Matrix<int>, b: Matrix<int>, res: Matrix<int>)
    reads a, a.raw, b, b.raw, res, res.raw
  {
    a.Valid() && a.buf != null && a.IsContinuous() && b.Valid() && b.buf != null && b.IsContinuous() &&
    res.Valid() && res.buf != null && res.IsContinuous() && a.sizes == b.sizes == res.sizes &&
    res.buf != a.buf && res.buf != b.buf
  }

  /** The runs of a and b are their elements, and res's run fits its buffer. */
  lemma RunSlices(a: Matrix<int>, b: Matrix<int>, res: Matrix<int>)
    requires Runs(a, b, res)
    ensures a.start + Product(a.sizes) <= a.buf.Length && a.Elements() == a.buf[a.start..a.start + Product(a.sizes)]
    ensures b.start + Product(a.sizes) <= b.buf.Length && b.Elements() == b.buf[b.start..b.start + Product(a.sizes)]
    ensures res.start + Product(a.sizes) <= res.buf.Length
  {
    Run(a);
    Run(b);
    Run(res);
  }

  /** The vec_sub fast path of operator -: one loop over the three runs. */
  method SubRuns(a: Matrix<int>, b: Matrix<int>, res: Matrix<int>)
    requires Runs(a, b, res)
    modifies res.buf
    ensures res.Elements() == ZipWith(old(a.Elements()), old(b.Elements()), Simd.Sub)
  {
    var n := a.Size();
    RunSlices(a, b, res);
    Simd.VecSub(a.buf, a.start, b.buf, b.start, res.buf, res.start, n);
    Run(res);
  }

  /** The vec_mul fast path of mul: one loop over the three runs. */
  method MulRuns(a: Matrix<int>, b: Matrix<int>, res: Matrix<int>)
    requires Runs(a, b, res)
    modifies res.buf
    ensures res.Elements() == ZipWith(old(a.Elements()), old(b.Elements()), Simd.Mul)
  {
    var n := a.Size();
    RunSlices(a, b, res);
    Simd.VecMul(a.buf, a.start, b.buf, b.start, res.buf, res.start, n);
    Run(res);
  }

  /** The vec_div fast path of operator /: one loop over the three runs. */
  method DivRuns(a: Matrix<int>, b: Matrix<int>, res: Matrix<int>)
    requires Runs(a, b, res) && NonZero(b)
    modifies res.buf
    ensures res.Elements() == Simd.Quotients(old(a.Elements()), old(b.Elements()))
  {
    var n := a.Size();
    RunSlices(a, b, res);
    Simd.VecDiv(a.buf, a.start, b.buf, b.start, res.buf, res.start, n);
    Run(res);
  }

  /** operator -(b): element-wise difference; vec_sub when both operands are continuous. */
  method Sub(a: Matrix<int>, b: Matrix<int>) returns (r: Result<Matrix<int>>)
    requires a.Valid() && b.Valid() && b.dim == a.dim
    ensures Checked(a, b, r)
    ensures r.Success? ==> fresh(r.value) && fresh(r.value.buf) && Fresh(r.value, a.dim, a.sizes)
    ensures r.Success? ==> a.buf != null && b.buf != null &&
                           r.value.Elements() == ZipWith(a.Elements(), b.Elements(), Simd.Sub)
  {
    if !a.IsValid() || !b.IsValid() {
      return Failure(LogicError);
    }
    if a.sizes != b.sizes {
      return Failure(InvalidArgument);
    }
    var res := Alloc(a.dim, a.sizes, 0);
    if a.IsContinuous() && b.IsContinuous() {
      SubRuns(a, b, res);
      return Success(res);
    }
    MatApply2(a, b, res, Simd.Sub);
    return Success(res);
  }

  /** operator -(v): every element minus v; vec_sub with a value when the operand is continuous. */
  method SubScalar(a: Matrix<int>, v: int) returns (r: Result<Matrix<int>>)
    requires a.Valid()
    ensures CheckedOne(a, r)
    ensures r.Success? ==> fresh(r.value) && fresh(r.value.buf) && Fresh(r.value, a.dim, a.sizes)
    ensures r.Success? ==> a.buf != null && forall k :: 0 <= k < |a.Elements()| ==> r.value.Elements()[k] == a.Elements()[k] - v
  {
    if !a.IsValid() {
      return Failure(LogicError);
    }
    var res := Alloc(a.dim, a.sizes, 0);
    if a.IsContinuous() {
      var n := a.Size();
      Run(a);
      Run(res);
      ghost var xs := a.Elements();
      Simd.VecSubValue(a.buf, a.start, v, res.buf, res.start, n);
      RunIs(res, seq(n, k requires 0 <= k < n => xs[k] - v));
      return Success(res);
    }
    MatApply1(a, res, x => x - v);
    return Success(res);
  }

  /** operator -(v, b): v minus every element. */
  method ScalarSub(v: int, b: Matrix<int>) returns (r: Result<Matrix<int>>)
    requires b.Valid()
    ensures CheckedOne(b, r)
    ensures r.Success? ==> fresh(r.value) && fresh(r.value.buf) && Fresh(r.value, b.dim, b.sizes)
    ensures r.Success? ==> b.buf != null && forall k :: 0 <= k < |b.Elements()| ==> r.value.Elements()[k] == v - b.Elements()[k]
  {
    if !b.IsValid() {
      return Failure(LogicError);
    }
    var res := Alloc(b.dim, b.sizes, 0);
    MatApply1(b, res, x => v - x);
    return Success(res);
  }

  /** mul(b): element-wise product; vec_mul when both operands are continuous. */
  method Mul(a: Matrix<int>, b: Matrix<int>) returns (r: Result<Matrix<int>>)
    requires a.Valid() && b.Valid() && b.dim == a.dim
    ensures Checked(a, b, r)
    ensures r.Success? ==> fresh(r.value) && fresh(r.value.buf) && Fresh(r.value, a.dim, a.sizes)
    ensures r.Success? ==> a.buf != null && b.buf != null &&
                           r.value.Elements() == ZipWith(a.Elements(), b.Elements(), Simd.Mul)
  {
    if !a.IsValid() || !b.IsValid() {
      return Failure(LogicError);
    }
    if a.sizes != b.sizes {
      return Failure(InvalidArgument);
    }
    var res := Alloc(a.dim, a.sizes, 0);
    if a.IsContinuous() && b.IsContinuous() {
      MulRuns(a, b, res);
      return Success(res);
    }
    MatApply2(a, b, res, Simd.Mul);
    return Success(res);
  }

  /** operator *(v): every element times v; vec_mul with a value when the operand is continuous. */
  method MulScalar(a: Matrix<int>, v: int) returns (r: Result<Matrix<int>>)
    requires a.Valid()
    ensures CheckedOne(a, r)
    ensures r.Success? ==> fresh(r.value) && fresh(r.value.buf) && Fresh(r.value, a.dim, a.sizes)
    ensures r.Success? ==> a.buf != null && forall k :: 0 <= k < |a.Elements()| ==> r.value.Elements()[k] == a.Elements()[k] * v
  {
    if !a.IsValid() {
      return Failure(LogicError);
    }
    var res := Alloc(a.dim, a.sizes, 0);
    if a.IsContinuous() {
      var n := a.Size();
      Run(a);
      Run(res);
      ghost var xs := a.Elements();
      Simd.VecMulValue(a.buf, a.start, v, res.buf, res.start, n);
      RunIs(res, seq(n, k requires 0 <= k < n => xs[k] * v));
      return Success(res);
    }
    MatApply1(a, res, x => x * v);
    return Success(res);
  }

  /** operator *(v, b): v times every element. */
  method ScalarMul(v: int, b: Matrix<int>) returns (r: Result<Matrix<int>>)
    requires b.Valid()
    ensures CheckedOne(b, r)
    ensures r.Success? ==> fresh(r.value) && fresh(r.value.buf) && Fresh(r.value, b.dim, b.sizes)
    ensures r.Success? ==> b.buf != null && forall k :: 0 <= k < |b.Elements()| ==> r.value.Elements()[k] == v * b.Elements()[k]
  {
    if !b.IsValid() {
      return Failure(LogicError);
    }
    var res := Alloc(b.dim, b.sizes, 0);
    MatApply1(b, res, x => v * x);
    return Success(res);
  }

  /** No element of a valid matrix is zero. */
  ghost predicate NonZero(m: Matrix<int>)
    reads m, m.raw, m.buf
    requires m.Valid()
  {
    m.buf != null ==> forall k :: 0 <= k < |m.Elements()| ==> m.Elements()[k] != 0
  }

  /**
   * operator /(b): element-wise quotient truncated toward zero; vec_div
   * when both operands are continuous. A zero divisor is undefined
   * behaviour and is excluded once the validity and shape checks pass.
   */
  method Div(a: Matrix<int>, b: Matrix<int>) returns (r: Result<Matrix<int>>)
    requires a.Valid() && b.Valid() && b.dim == a.dim
    requires a.IsValid() && b.IsValid() && a.sizes == b.sizes ==> NonZero(b)
    ensures Checked(a, b, r)
    ensures r.Success? ==> fresh(r.value) && fresh(r.value.buf) && Fresh(r.value, a.dim, a.sizes)
    ensures r.Success? ==> a.buf != null && b.buf != null &&
                           r.value.Elements() == Simd.Quotients(a.Elements(), b.Elements())
  {
    if !a.IsValid() || !b.IsValid() {
      return Failure(LogicError);
    }
    if a.sizes != b.sizes {
      return Failure(InvalidArgument);
    }
    var res := Alloc(a.dim, a.sizes, 0);
    if a.IsContinuous() && b.IsContinuous() {
      DivRuns(a, b, res);
      return Success(res);
    }
    MatApply2(a, b, res, Simd.Quot);
    Simd.QuotientsAgree(a.Elements(), b.Elements());
    return Success(res);
  }

  /** operator /(v): every element divided by v, truncated toward zero; v == 0 is excluded for a valid matrix. */
  method DivScalar(a: Matrix<int>, v: int) returns (r: Result<Matrix<int>>)
    requires a.Valid()
    requires a.IsValid() ==> v != 0
    ensures CheckedOne(a, r)
    ensures r.Success? ==> fresh(r.value) && fresh(r.value.buf) && Fresh(r.value, a.dim, a.sizes)
    ensures r.Success? ==> a.buf != null && forall k :: 0 <= k < |a.Elements()| ==> r.value.Elements()[k] == TDiv(a.Elements()[k], v)
  {
    if !a.IsValid() {
      return Failure(LogicError);
    }
    var res := Alloc(a.dim, a.sizes, 0);
    MatApply1(a, res, x => TDiv(x, v));
    return Success(res);
  }

  /** operator /(v, b): v divided by every element, truncated toward zero; a zero element of a valid b is excluded. */
  method ScalarDiv(v: int, b: Matrix<int>) returns (r: Result<Matrix<int>>)
    requires b.Valid()
    requires b.IsValid() ==> NonZero(b)
    ensures CheckedOne(b, r)
    ensures r.Success? ==> fresh(r.value) && fresh(r.value.buf) && Fresh(r.value, b.dim, b.sizes)
    ensures r.Success? ==> b.buf != null && forall k :: 0 <= k < |b.Elements()| ==> r.value.Elements()[k] == TDiv(v, b.Elements()[k])
  {
    if !b.IsValid() {
      return Failure(LogicError);
    }
    var res := Alloc(b.dim, b.sizes, 0);
    MatApply1(b, res, x => Simd.Quot(v, x));
    return Success(res);
  }

  // ---- Comparisons ----

  function Less(x: int, y: int): bool { x < y }
  function LessEq(x: int, y: int): bool { x <= y }
  function Greater(x: int, y: int): bool { x > y }
  function GreaterEq(x: int, y: int): bool { x >= y }

  /** operator <(b): the element-wise comparison as a matrix of bool. */
  method Lt(a: Matrix<int>, b: Matrix<int>) returns (r: Result<Matrix<bool>>)
    requires a.Valid() && b.Valid() && b.dim == a.dim
    ensures Checked(a, b, r)
    ensures r.Success? ==> fresh(r.value) && fresh(r.value.buf) && Fresh(r.value, a.dim, a.sizes)
    ensures r.Success? ==> a.buf != null && b.buf != null &&
                           r.value.Elements() == ZipWith(a.Elements(), b.Elements(), Less)
  {
    if !a.IsValid() || !b.IsValid() {
      return Failure(LogicError);
    }
    if a.sizes != b.sizes {
      return Failure(InvalidArgument);
    }
    var res := Alloc(a.dim, a.sizes, false);
    MatApply2(a, b, res, Less);
    return Success(res);
  }

  /** operator <=(b). */
  method Le(a: Matrix<int>, b: Matrix<int>) returns (r: Result<Matrix<bool>>)
    requires a.Valid() && b.Valid() && b.dim == a.dim
    ensures Checked(a, b, r)
    ensures r.Success? ==> fresh(r.value) && fresh(r.value.buf) && Fresh(r.value, a.dim, a.sizes)
    ensures r.Success? ==> a.buf != null && b.buf != null &&
                           r.value.Elements() == ZipWith(a.Elements(), b.Elements(), LessEq)
  {
    if !a.IsValid() || !b.IsValid() {
      return Failure(LogicError);
    }
    if a.sizes != b.sizes {
      return Failure(InvalidArgument);
    }
    var res := Alloc(a.dim, a.sizes, false);
    MatApply2(a, b, res, LessEq);
    return Success(res);
  }

  /** operator >(b). */
  method Gt(a: Matrix<int>, b: Matrix<int>) returns (r: Result<Matrix<bool>>)
    requires a.Valid() && b.Valid() && b.dim == a.dim
    ensures Checked(a, b, r)
    ensures r.Success? ==> fresh(r.value) && fresh(r.value.buf) && Fresh(r.value, a.dim, a.sizes)
    ensures r.Success? ==> a.buf != null && b.buf != null &&
                           r.value.Elements() == ZipWith(a.Elements(), b.Elements(), Greater)
  {
    if !a.IsValid() || !b.IsValid() {
      return Failure(LogicError);
    }
    if a.sizes != b.sizes {
      return Failure(InvalidArgument);
    }
    var res := Alloc(a.dim, a.sizes, false);
    MatApply2(a, b, res, Greater);
    return Success(res);
  }

  /** operator >=(b). */
  method Ge(a: Matrix<int>, b: Matrix<int>) returns (r: Result<Matrix<bool>>)
    requires a.Valid() && b.Valid() && b.dim == a.dim
    ensures Checked(a, b, r)
    ensures r.Success? ==> fresh(r.value) && fresh(r.value.buf) && Fresh(r.value, a.dim, a.sizes)
    ensures r.Success? ==> a.buf != null && b.buf != null &&
                           r.value.Elements() == ZipWith(a.Elements(), b.Elements(), GreaterEq)
  {
    if !a.IsValid() || !b.IsValid() {
      return Failure(LogicError);
    }
    if a.sizes != b.sizes {
      return Failure(InvalidArgument);
    }
    var res := Alloc(a.dim, a.sizes, false);
    MatApply2(a, b, res, GreaterEq);
    return Success(res);
  }

  // ---- Products ----

  /**
   * Element (r, k) of a valid rank-2 matrix sits at start + r*steps[0] + k
   * (the last stride is 1) and is element r*cols + k in row-major order.
   */
  lemma RowCell(m: Matrix<int>, r: nat, k: nat)
    requires m.Valid() && m.buf != null && m.dim == 2 && r < m.sizes[0] && k < m.sizes[1]
    ensures m.start + r * m.steps[0] + k < m.buf.Length
    ensures r * m.sizes[1] + k < |m.Elements()| && m.buf[m.start + r * m.steps[0] + k] == m.Elements()[r * m.sizes[1] + k]
    ensures Gemm.Get(m.buf[..], m.start + r * m.steps[0] + k) == Gemm.Get(m.Elements(), r * m.sizes[1] + k)
  {
    var s0, s1, t0 := m.sizes[0], m.sizes[1], m.steps[0];
    assert m.sizes == [s0, s1] && m.steps == [t0, 1];
    var p := [r, k];
    assert InRange(p, m.sizes);
    LinOffset(p, m.sizes, m.steps);
    OffsetBounds(Lin(p, m.sizes), m.sizes, m.steps);
    Index2(r, k, s0, s1, t0);
    m.CellIsElement(p);
    assert m.Cell(p) == m.buf[m.start + Dot(p, m.steps)];
  }

  /** The last element a rank-2 matrix addresses: start + (rows-1)*steps[0] + cols - 1 is inside its buffer. */
  lemma RowBound(m: Matrix<int>)
    requires m.Valid() && m.buf != null && m.dim == 2
    ensures m.start + (m.sizes[0] - 1) * m.steps[0] + m.sizes[1] <= m.buf.Length
  {
    RowCell(m, m.sizes[0] - 1, m.sizes[1] - 1);
  }

  /** The operands gemm reads when called on the buffers of a and b. */
  ghost function BufferOperands(a: Matrix<int>, b: Matrix<int>, sd: nat): Gemm.Operands
    reads a, b, a.buf, b.buf
    requires a.buf != null && b.buf != null && |a.steps| >= 1 && |b.steps| >= 1
  {
    Gemm.Operands(a.buf[..], a.start, a.steps[0], b.buf[..], b.start, b.steps[0], 0, sd)
  }

  /** Read through the buffers, gemm's operands are the row-major element sequences of a and b. */
  lemma OperandsAgree(a: Matrix<int>, b: Matrix<int>, sd: nat, q: int)
    requires a.Valid() && a.buf != null && a.dim == 2 && b.Valid() && b.buf != null && b.dim == 2
    requires a.sizes[1] == b.sizes[0]
    ensures Gemm.Block(BufferOperands(a, b, sd), q, 0, a.sizes[0], 0, b.sizes[1], 0, a.sizes[1]) ==
            Gemm.Block(Gemm.RowMajor(a.Elements(), b.Elements(), a.sizes[1], b.sizes[1], sd), q, 0, a.sizes[0], 0, b.sizes[1], 0, a.sizes[1])
  {
    var M, K, N := a.sizes[0], a.sizes[1], b.sizes[1];
    var xa, ea, xb, eb := a.buf[..], a.Elements(), b.buf[..], b.Elements();
    var g := Gemm.Operands(xa, a.start, a.steps[0], xb, b.start, b.steps[0], 0, sd);
    var h := Gemm.RowMajor(ea, eb, K, N, sd);
    forall r, k | 0 <= r < M && 0 <= k < K ensures Gemm.A(g, r, k) == Gemm.A(h, r, k) {
      RowCell(a, r, k);
    }
    forall k, c | 0 <= k < K && 0 <= c < N ensures Gemm.B(g, k, c) == Gemm.B(h, k, c) {
      RowCell(b, k, c);
    }
    Gemm.BlockAgree(g, h, q, M, K, N);
  }

  /**
   * Runs gemm(a.start_ptr, b.start_ptr, res.start_ptr, M, K, N, a.step(0),
   * b.step(0), sd) into a zeroed, fresh M x N result, with tiles of 256
   * (1024 bytes of a 4-byte int). Every element q of the result is the
   * sum of the product entries landing at q.
   */
  method GemmInto(a: Matrix<int>, b: Matrix<int>, res: Matrix<int>, sd: nat)
    requires a.Valid() && a.buf != null && a.dim == 2 && b.Valid() && b.buf != null && b.dim == 2
    requires a.sizes[1] == b.sizes[0] && 1 <= sd <= b.sizes[1]
    requires Fresh(res, 2, [a.sizes[0], b.sizes[1]]) && res.buf != a.buf && res.buf != b.buf
    requires res.Elements() == seq(a.sizes[0] * b.sizes[1], _ => 0)
    modifies res.buf
    ensures res.Valid() && res.buf != null
    ensures forall q :: 0 <= q < |res.Elements()| ==>
              res.Elements()[q] == Gemm.Block(Gemm.RowMajor(a.Elements(), b.Elements(), a.sizes[1], b.sizes[1], sd),
                                              q, 0, a.sizes[0], 0, b.sizes[1], 0, a.sizes[1])
  {
    var M, K, N := a.sizes[0], a.sizes[1], b.sizes[1];
    RowBound(a);
    RowBound(b);
    Product2(M, N);
    Run(res);
    DestBound(M, N, sd);
    ghost var g := BufferOperands(a, b, sd);
    ghost var h := Gemm.RowMajor(a.Elements(), b.Elements(), K, N, sd);
    ghost var z := res.buf[..];
    forall q | 0 <= q < M * N ensures z[q] + Gemm.Block(g, q, 0, M, 0, N, 0, K) == Gemm.Block(h, q, 0, M, 0, N, 0, K) {
      assert z[q] == res.Elements()[q];
      OperandsAgree(a, b, sd, q);
    }
    Gemm.Gemm(a.buf, a.start, b.buf, b.start, res.buf, res.start, M, K, N, a.steps[0], b.steps[0], sd, 256);
    assert forall q :: 0 <= q < M * N ==> res.buf[q] == Gemm.Block(h, q, 0, M, 0, N, 0, K);
    Run(res);
  }

  /** The last product entry gemm writes with destination stride sd <= N lies inside an M x N result. */
  lemma DestBound(M: nat, N: nat, sd: nat)
    requires M >= 1 && sd <= N
    ensures (M - 1) * sd + N <= M * N
  {
    MulLe(sd, N, M - 1);
  }

  /**
   * operator *(b) for two rank-2 matrices, with gemm's destination stride
   * N, as intended: logic_error on an invalid operand, invalid_argument
   * when cols() != b.rows(), and otherwise the M x N matrix product.
   */
  method MatMul(a: Matrix<int>, b: Matrix<int>) returns (r: Result<Matrix<int>>)
    requires a.Valid() && b.Valid() && a.dim == 2 && b.dim == 2
    ensures !a.IsValid() || !b.IsValid() ==> r == Failure(LogicError)
    ensures a.IsValid() && b.IsValid() ==> (r.Failure? <==> a.sizes[1] != b.sizes[0]) && (r.Failure? ==> r.error == InvalidArgument)
    ensures r.Success? ==> fresh(r.value) && fresh(r.value.buf) && Fresh(r.value, 2, [a.sizes[0], b.sizes[1]])
    ensures r.Success? ==> a.buf != null && b.buf != null &&
                           r.value.Elements() == Gemm.MatProduct(a.Elements(), b.Elements(), a.sizes[0], a.sizes[1], b.sizes[1])
  {
    if !a.IsValid() || !b.IsValid() {
      return Failure(LogicError);
    }
    if a.sizes[1] != b.sizes[0] {
      return Failure(InvalidArgument);
    }
    var M, K, N := a.sizes[0], a.sizes[1], b.sizes[1];
    var res := Alloc(2, [M, N], 0);
    Product2(M, N);
    GemmInto(a, b, res, N);
    Gemm.ProductWhole(res.Elements(), a.Elements(), b.Elements(), M, K, N);
    return Success(res);
  }

  /**
   * operator *(b) for two rank-2 matrices as written: gemm is passed a
   * destination stride of 1, so product entry (r, c) is added at r + c of
   * the result and entries of different rows overlap.
   */
  method MatMulAsWritten(a: Matrix<int>, b: Matrix<int>) returns (r: Result<Matrix<int>>)
    requires a.Valid() && b.Valid() && a.dim == 2 && b.dim == 2
    ensures !a.IsValid() || !b.IsValid() ==> r == Failure(LogicError)
    ensures a.IsValid() && b.IsValid() ==> (r.Failure? <==> a.sizes[1] != b.sizes[0]) && (r.Failure? ==> r.error == InvalidArgument)
    ensures r.Success? ==> fresh(r.value) && fresh(r.value.buf) && Fresh(r.value, 2, [a.sizes[0], b.sizes[1]])
    ensures r.Success? ==> a.buf != null && b.buf != null
    ensures r.Success? ==> forall q :: 0 <= q < |r.value.Elements()| ==>
              r.value.Elements()[q] == Gemm.Block(Gemm.RowMajor(a.Elements(), b.Elements(), a.sizes[1], b.sizes[1], 1),
                                                  q, 0, a.sizes[0], 0, b.sizes[1], 0, a.sizes[1])
  {
    if !a.IsValid() || !b.IsValid() {
      return Failure(LogicError);
    }
    if a.sizes[1] != b.sizes[0] {
      return Failure(InvalidArgument);
    }
    var M, N := a.sizes[0], b.sizes[1];
    var res := Alloc(2, [M, N], 0);
    Product2(M, N);
    GemmInto(a, b, res, 1);
    return Success(res);
  }

  /** A valid rank-1 matrix is always continuous: its one stride is 1. */
  lemma VectorContinuous(v: Matrix<int>)
    requires v.Valid() && v.buf != null && v.dim == 1
    ensures v.IsContinuous() && v.steps == [1]
  {
    assert IsContiguous(v.sizes, v.steps);
  }

  /**
   * operator *(b) for a rank-2 matrix and a vector: invalid_argument when
   * cols() != b.size(), otherwise the product with b reinterpreted as a
   * size x 1 matrix; the rank-2 product is called as written, which is
   * right for a one-column result.
   */
  method MatVec(a: Matrix<int>, b: Matrix<int>) returns (r: Result<Matrix<int>>)
    requires a.Valid() && b.Valid() && a.dim == 2 && b.dim == 1
    ensures !a.IsValid() || !b.IsValid() ==> r == Failure(LogicError)
    ensures a.IsValid() && b.IsValid() ==> (r.Failure? <==> a.sizes[1] != b.sizes[0]) && (r.Failure? ==> r.error == InvalidArgument)
    ensures r.Success? ==> fresh(r.value) && Fresh(r.value, 2, [a.sizes[0], 1])
    ensures r.Success? ==> a.buf != null && b.buf != null &&
                           r.value.Elements() == Gemm.MatProduct(a.Elements(), b.Elements(), a.sizes[0], a.sizes[1], 1)
  {
    if !a.IsValid() || !b.IsValid() {
      return Failure(LogicError);
    }
    var n := b.Size();
    if a.sizes[1] != n {
      return Failure(InvalidArgument);
    }
    VectorContinuous(b);
    assert Product([n, 1]) == n by {
      assert [n, 1][1..] == [1] && [1][1..] == [];
      assert b.sizes[1..] == [];
    }
    var col := b.Reinterpret([n, 1], 1);
    r := MatMulAsWritten(a, col.value);
    if r.Success? {
      Product2(a.sizes[0], 1);
      Gemm.VectorProductAsWritten(r.value.Elements(), a.Elements(), col.value.Elements(), a.sizes[0], n, 1);
    }
  }

  /**
   * operator *(b) for two vectors: invalid_argument when the sizes differ,
   * otherwise start_ptr[0] * b.start_ptr[0] plus the products of the
   * following elements, i.e. the sum of the element-wise products.
   */
  method VecDot(a: Matrix<int>, b: Matrix<int>) returns (r: Result<int>)
    requires a.Valid() && b.Valid() && a.dim == 1 && b.dim == 1
    ensures !a.IsValid() || !b.IsValid() ==> r == Failure(LogicError)
    ensures a.IsValid() && b.IsValid() ==> (r.Failure? <==> a.sizes != b.sizes) && (r.Failure? ==> r.error == InvalidArgument)
    ensures r.Success? ==> a.buf != null && b.buf != null && |a.Elements()| == |b.Elements()| &&
                           r.value == Sum(ZipWith(a.Elements(), b.Elements(), Simd.Mul))
  {
    if !a.IsValid() || !b.IsValid() {
      return Failure(LogicError);
    }
    var siz := a.Size();
    var bsiz := b.Size();
    if siz != bsiz {
      assert a.sizes != b.sizes by {
        assert a.sizes[1..] == [] && b.sizes[1..] == [];
      }
      return Failure(InvalidArgument);
    }
    assert a.sizes == b.sizes by {
      assert a.sizes[1..] == [] && b.sizes[1..] == [];
      assert a.sizes == [a.sizes[0]] && b.sizes == [b.sizes[0]];
    }
    VectorContinuous(a);
    VectorContinuous(b);
    Run(a);
    Run(b);
    var res := DotRun(a.buf, a.start, b.buf, b.start, siz);
    return Success(res);
  }

  /**
   * The loop of the vector dot product over two runs of n >= 1 values: the
   * accumulator starts at the first product and adds the others in order.
   */
  method DotRun(x: array<int>, xo: nat, y: array<int>, yo: nat, n: nat) returns (res: int)
    requires n >= 1 && xo + n <= x.Length && yo + n <= y.Length
    ensures res == Sum(ZipWith(x[xo..xo + n], y[yo..yo + n], Simd.Mul))
  {
    ghost var ps := ZipWith(x[xo..xo + n], y[yo..yo + n], Simd.Mul);
    res := Simd.Mul(x[xo], y[yo]);
    assert ps[..1] == [ps[0]];
    assert Sum(ps[..1]) == ps[0] by {
      assert [ps[0]][1..] == [];
    }
    var i := 1;
    while i < n
      invariant 1 <= i <= n
      invariant res == Sum(ps[..i])
    {
      assert ps[..i + 1] == ps[..i] + [ps[i]];
      SumSnoc(ps[..i], ps[i]);
      res := res + Simd.Mul(x[xo + i], y[yo + i]);
      i := i + 1;
    }
    assert ps[..n] == ps;
  }

  /** The inner products of the first k pairs are the first k terms of the 1 x n by n x 1 product. */
  lemma {:induction false} DotEntry(xs: seq<int>, ys: seq<int>, k: nat)
    requires |xs| == |ys| && k <= |xs|
    ensures Gemm.Entry(xs, ys, |xs|, 1, 0, 0, k) == Sum(ZipWith(xs, ys, Simd.Mul)[..k])
    decreases k
  {
    if k > 0 {
      var ps := ZipWith(xs, ys, Simd.Mul);
      DotEntry(xs, ys, k - 1);
      assert ps[..k] == ps[..k - 1] + [ps[k - 1]];
      SumSnoc(ps[..k - 1], ps[k - 1]);
    }
  }

  /** The dot product of two vectors is the single entry of the row-vector by column-vector product. */
  lemma DotIsProduct(xs: seq<int>, ys: seq<int>)
    requires |xs| == |ys|
    ensures Sum(ZipWith(xs, ys, Simd.Mul)) == Gemm.MatProduct(xs, ys, 1, |xs|, 1)[0]
  {
    DotEntry(xs, ys, |xs|);
    assert ZipWith(xs, ys, Simd.Mul)[..|xs|] == ZipWith(xs, ys, Simd.Mul);
  }

  /**
   * operator *(b) for a vector and a rank-2 matrix: invalid_argument when
   * size() != b.rows(), otherwise the vector reinterpreted as 1 x size
   * times b, reinterpreted back as a vector of b.cols() elements; the
   * rank-2 product is called as written, which is right for a one-row
   * result.
   */
  method VecMat(a: Matrix<int>, b: Matrix<int>) returns (r: Result<Matrix<int>>)
    requires a.Valid() && b.Valid() && a.dim == 1 && b.dim == 2
    ensures !a.IsValid() || !b.IsValid() ==> r == Failure(LogicError)
    ensures a.IsValid() && b.IsValid() ==> (r.Failure? <==> a.sizes[0] != b.sizes[0]) && (r.Failure? ==> r.error == InvalidArgument)
    ensures r.Success? ==> fresh(r.value) && Fresh(r.value, 1, [b.sizes[1]])
    ensures r.Success? ==> a.buf != null && b.buf != null &&
                           r.value.Elements() == Gemm.MatProduct(a.Elements(), b.Elements(), 1, a.sizes[0], b.sizes[1])
  {
    if !a.IsValid() || !b.IsValid() {
      return Failure(LogicError);
    }
    var n := a.Size();
    if n != b.sizes[0] {
      return Failure(InvalidArgument);
    }
    VectorContinuous(a);
    assert Product([1, n]) == n by {
      assert [1, n][1..] == [n] && [n][1..] == [];
      assert a.sizes[1..] == [];
    }
    var row := a.Reinterpret([1, n], 1);
    var p := MatMulAsWritten(row.value, b);
    var N := b.sizes[1];
    Product2(1, N);
    Gemm.VectorProductAsWritten(p.value.Elements(), row.value.Elements(), b.Elements(), 1, n, N);
    assert Product([N]) == Product([1, N]) by {
      assert [1, N][1..] == [N] && [N][1..] == [];
    }
    var v := p.value.Reinterpret([N], 1);
    return Success(v.value);
  }
}
