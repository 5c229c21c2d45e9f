// The strided array handle. A matrix is a window onto a shared element
// buffer: the buffer, the position of its first element, an extent and a
// stride per axis, and two flag bits telling whether the window is one
// dense row-major run and whether it was obtained as a view of another
// matrix. Element pointers are positions in the buffer.

module Mat {
  import opened Errors
  import opened Shape
  import opened Iter
  import opened Data
  import opened Utils
  import opened MatInternal
  import opened Blocks

  /**
   * The extents collected by the nested create: a zeroed shape whose first
   * entry becomes the number of rows while every row is collected one
   * level down, which is the node case of collect_shape on the whole list.
   */
  method NestedShape<T>(vals: seq<InitVal<T>>, dim: nat) returns (siz: seq<nat>)
    requires dim >= 2 && forall i :: 0 <= i < |vals| ==> HasDepth(vals[i], dim - 1)
    ensures siz == WidthShape(Node(vals), dim)
  {
    var a := new nat[dim](_ => 0);
    CollectShape(Node(vals), dim, a, 0);
    siz := a[..];
    assert siz == WidthShape(Node(vals), dim);
  }

  /**
   * The index walk of at() on a shape: each supplied index is normalised,
   * range-checked against its extent, and index times stride is added to
   * the start.
   */
  method Offset(ix: seq<int>, sizes: seq<nat>, steps: seq<nat>, start: nat) returns (r: Result<nat>)
    requires |ix| <= |sizes| == |steps|
    ensures r.Success? <==> InRange(Normalise(ix, sizes), sizes[..|ix|])
    ensures r.Failure? ==> r.error == OutOfRange
    ensures r.Success? ==> r.value == start + Dot(Normalise(ix, sizes), steps[..|ix|])
  {
    ghost var norm := Normalise(ix, sizes);
    var idx := ix;
    var ptr: nat := start;
    var i := 0;
    while i < |ix|
      invariant 0 <= i <= |ix| && |idx| == |ix|
      invariant idx[..i] == norm[..i] && idx[i..] == ix[i..]
      invariant InRange(norm[..i], sizes[..i])
      invariant ptr == start + Dot(norm[..i], steps[..i])
    {
      assert idx[i] == ix[i] by { assert idx[i..][0] == ix[i..][0]; }
      if idx[i] < 0 {
        idx := idx[i := idx[i] + sizes[i]];
      }
      if idx[i] >= sizes[i] || idx[i] < 0 {
        assert !InRange(norm, sizes[..|ix|]) by { assert sizes[..|ix|][i] == sizes[i]; }
        return Failure(OutOfRange);
      }
      DotAppend(norm[..i], norm[i], steps[..i + 1]);
      assert norm[..i + 1] == norm[..i] + [norm[i]];
      assert steps[..i + 1][..i] == steps[..i];
      ptr := ptr + idx[i] * steps[i];
      ghost var ns, ss := norm[..i + 1], sizes[..i + 1];
      assert InRange(ns, ss) by {
        forall j | 0 <= j < i + 1 ensures 0 <= ns[j] < ss[j] {
          if j < i { assert ns[j] == norm[..i][j] && ss[j] == sizes[..i][j]; }
        }
      }
      i := i + 1;
    }
    assert norm[..|ix|] == norm;
    return Success(ptr);
  }

  /** The flag bit of a matrix whose elements are one dense row-major run. */
  const CONTINUOUS_FLAG: bv32 := 1
  /** The flag bit of a matrix that shares its buffer with another. */
  const VIEW_FLAG: bv32 := 2

  /** The stride test of recalc_continuous: from the last axis inwards, each stride must be the block below it. */
  method ContiguityTest(sizes: seq<nat>, steps: seq<nat>) returns (f: bool)
    requires |sizes| == |steps| >= 1
    ensures f <==> IsContiguous(sizes, steps)
  {
    var dim := |steps|;
    f := steps[dim - 1] == 1;
    var i := dim - 1;
    while i > 0 && f
      invariant 0 <= i <= dim - 1
      invariant f ==> steps[dim - 1] == 1 && forall j :: i < j < dim ==> StepIsBlock(sizes, steps, j)
      invariant !f ==> !IsContiguous(sizes, steps)
    {
      if sizes[i] * steps[i] != steps[i - 1] {
        assert !StepIsBlock(sizes, steps, i);
        f := false;
        break;
      }
      i := i - 1;
    }
  }

  class Matrix<T(0)> {
    /** The rank, fixed by the type. */
    const dim: nat
    /** The buffer manager; null for an invalid (empty) matrix. */
    var raw: MatrixData?<T>
    /** The storage of raw, into which start points. */
    var buf: array?<T>
    var start: nat
    var sizes: seq<nat>
    var steps: seq<nat>
    var flag: bv32

    predicate IsContinuous()
      reads this
    {
      flag & CONTINUOUS_FLAG != 0
    }

    predicate IsView()
      reads this
    {
      flag & VIEW_FLAG != 0
    }

    predicate IsValid()
      reads this
    {
      raw != null
    }

    /**
     * The part of the invariant that does not need a buffer: one extent and
     * one stride per axis, and a set continuity bit only on a dense
     * row-major layout.
     */
    ghost predicate Shaped()
      reads this
    {
      dim >= 1 && |sizes| == dim && |steps| == dim &&
      (IsContinuous() ==> IsContiguous(sizes, steps))
    }

    /**
     * The invariant of every matrix: a valid matrix addresses a nested
     * layout inside its buffer, and its continuity bit is set exactly when
     * that layout is dense.
     */
    ghost predicate Valid()
      reads this, raw
    {
      Shaped() &&
      (raw == null <==> buf == null) &&
      (raw != null ==> raw.data == buf) &&
      (buf != null ==> Layout(sizes, steps, start, buf.Length) && (IsContiguous(sizes, steps) ==> IsContinuous()))
    }

    /** The elements of a valid matrix in row-major order. */
    ghost function Elements(): (r: seq<T>)
      reads this, raw, buf
      requires Valid() && buf != null
      ensures |r| == Product(sizes) > 0
    {
      ProductPositive(sizes);
      Gather(buf, start, sizes, steps)
    }

    /** The element a full in-range multi-index addresses. */
    ghost function Cell(p: seq<int>): T
      reads this, raw, buf
      requires Valid() && buf != null && InRange(p, sizes)
    {
      LinOffset(p, sizes, steps);
      OffsetBounds(Lin(p, sizes), sizes, steps);
      buf[start + Dot(p, steps)]
    }

    /** The element at a multi-index is the element at its row-major position. */
    lemma CellIsElement(p: seq<int>)
      requires Valid() && buf != null && InRange(p, sizes)
      ensures 0 <= Lin(p, sizes) < Product(sizes) && Cell(p) == Elements()[Lin(p, sizes)]
    {
      LinOffset(p, sizes, steps);
    }

    /**
     * size(): the extent of a rank-1 matrix, steps[0] * sizes[0] for a
     * continuous one, and otherwise the product of the extents.
     */
    method Size() returns (n: nat)
      requires Shaped()
      ensures n == Product(sizes)
    {
      if dim == 1 {
        assert sizes[1..] == [];
        n := sizes[0];
      } else if IsContinuous() {
        ContiguousIffRowMajor(sizes, steps);
        RowMajorStepsAt(sizes, 0);
        n := steps[0] * sizes[0];
      } else {
        n := ProductOf(sizes);
      }
    }

    /** reset(): no buffer, no flags, all extents and strides zero. */
    method Reset()
      requires dim >= 1
      modifies this
      ensures Valid() && raw == null && buf == null && start == 0 && flag == 0
      ensures sizes == seq(dim, _ => 0) && steps == seq(dim, _ => 0)
    {
      raw, buf, start, flag := null, null, 0, 0;
      sizes := seq(dim, _ => 0);
      steps := seq(dim, _ => 0);
    }

    /** The default constructor: an invalid matrix of rank dim. */
    constructor (dim: nat)
      requires dim >= 1
      ensures this.dim == dim && Valid() && raw == null && buf == null && start == 0 && flag == 0
      ensures sizes == seq(dim, _ => 0) && steps == seq(dim, _ => 0)
    {
      this.dim := dim;
      new;
      Reset();
    }

    /**
     * recalc_continuous(): tests the strides from the last axis inwards and
     * toggles the continuity bit when it disagrees with the test. No other
     * bit and no other field changes.
     */
    method RecalcContinuous()
      requires dim >= 1 && |sizes| == dim && |steps| == dim
      modifies this
      ensures raw == old(raw) && buf == old(buf) && start == old(start)
      ensures sizes == old(sizes) && steps == old(steps)
      ensures IsContinuous() <==> IsContiguous(sizes, steps)
      ensures flag == old(flag) || flag == old(flag) ^ CONTINUOUS_FLAG
      ensures IsView() == old(IsView())
    {
      var f := ContiguityTest(sizes, steps);
      if f != IsContinuous() {
        BitToggle(flag);
        flag := flag ^ CONTINUOUS_FLAG;
      }
    }

    /**
     * init_shape(shape, init): rejects a zero extent, and otherwise takes
     * the extents with row-major strides, a fresh buffer of that many
     * copies of init, and the continuity flag alone.
     */
    method InitShape(shape: seq<nat>, init: T) returns (o: Outcome)
      requires Valid() && |shape| == dim
      modifies this
      ensures o.Fail? <==> !Positive(shape)
      ensures o.Fail? ==> o.error == InvalidArgument && unchanged(this)
      ensures o.Pass? ==> Valid() && fresh(raw) && fresh(buf) && start == 0 && flag == CONTINUOUS_FLAG
      ensures o.Pass? ==> sizes == shape && steps == RowMajorSteps(shape)
      ensures o.Pass? ==> buf.Length == Product(shape) && Elements() == seq(Product(shape), _ => init)
    {
      var i := 0;
      while i < dim
        invariant 0 <= i <= dim && forall j :: 0 <= j < i ==> shape[j] > 0
      {
        if shape[i] == 0 {
          return Fail(InvalidArgument);
        }
        i := i + 1;
      }
      sizes, steps := SetSizeAndStep(shape);
      var n := Size();
      var m := MakeManager(n, init);
      raw, buf, start := m, m.data, m.origin;
      flag := CONTINUOUS_FLAG;
      ContiguousLayout(sizes, steps, 0, buf.Length);
      ContiguousGather(buf, 0, sizes, steps);
      return Pass;
    }

    /** The rank-1 create(siz, init): reset, then init_shape. */
    method Create1(siz: nat, init: T) returns (o: Outcome)
      requires Valid() && dim == 1
      modifies this
      ensures o.Fail? <==> siz == 0
      ensures o.Fail? ==> o.error == InvalidArgument && raw == null && buf == null && flag == 0
      ensures o.Pass? ==> Valid() && fresh(buf) && sizes == [siz] && steps == [1] && flag == CONTINUOUS_FLAG
      ensures o.Pass? ==> Elements() == seq(siz, _ => init)
    {
      Reset();
      o := InitShape([siz], init);
      if o.Pass? {
        assert Product([siz]) == siz * Product([]);
        assert RowMajorSteps([siz]) == [Product([])] + RowMajorSteps([]);
      }
    }

    /** The rank-2 create(rw, cl, init): reset, then init_shape. */
    method Create2(rw: nat, cl: nat, init: T) returns (o: Outcome)
      requires Valid() && dim == 2
      modifies this
      ensures o.Fail? <==> rw == 0 || cl == 0
      ensures o.Fail? ==> o.error == InvalidArgument && raw == null && buf == null && flag == 0
      ensures o.Pass? ==> Valid() && fresh(buf) && sizes == [rw, cl] && steps == [cl, 1] && flag == CONTINUOUS_FLAG
      ensures o.Pass? ==> Elements() == seq(rw * cl, _ => init)
    {
      Reset();
      o := InitShape([rw, cl], init);
      if o.Pass? {
        assert [rw, cl][1..] == [cl] && [cl][1..] == [];
        assert Product([rw, cl]) == rw * cl;
        assert RowMajorSteps([rw, cl]) == [cl, 1];
      }
    }

    /**
     * create(sizes, init) from a run of extents: a count other than the
     * rank is rejected before anything changes; otherwise reset, then
     * init_shape.
     */
    method CreateSizes(shape: seq<nat>, init: T) returns (o: Outcome)
      requires Valid()
      modifies this
      ensures o.Fail? <==> |shape| != dim || !Positive(shape)
      ensures o.Fail? ==> o.error == InvalidArgument
      ensures |shape| != dim ==> unchanged(this)
      ensures |shape| == dim && o.Fail? ==> raw == null && buf == null && flag == 0
      ensures o.Pass? ==> Valid() && fresh(buf) && sizes == shape && steps == RowMajorSteps(shape)
      ensures o.Pass? ==> flag == CONTINUOUS_FLAG && start == 0 && Elements() == seq(Product(shape), _ => init)
    {
      if |shape| != dim {
        return Fail(InvalidArgument);
      }
      Reset();
      o := InitShape(shape, init);
    }

    /**
     * create from a nested initializer list (rank >= 2): the extents are
     * the longest list at each depth, the buffer starts value-initialised
     * (zero) and each listed value overwrites the element at its position.
     * An extent that comes out zero (every list at that depth is empty)
     * is rejected.
     */
    method CreateNested(vals: seq<InitVal<T>>, zero: T) returns (o: Outcome)
      requires Valid() && dim >= 2 && forall i :: 0 <= i < |vals| ==> HasDepth(vals[i], dim - 1)
      modifies this
      ensures o.Fail? <==> !Positive(WidthShape(Node(vals), dim))
      ensures o.Fail? ==> o.error == InvalidArgument && raw == null && buf == null && flag == 0
      ensures o.Pass? ==> Valid() && fresh(buf) && flag == CONTINUOUS_FLAG
      ensures o.Pass? ==> sizes == WidthShape(Node(vals), dim) && steps == RowMajorSteps(sizes)
      ensures o.Pass? ==> Fits(Node(vals), sizes) && Positive(sizes) &&
                          Elements() == Overlay(Node(vals), sizes, seq(Product(sizes), _ => zero))
    {
      Reset();
      var siz := NestedShape(vals, dim);
      o := InitShape(siz, zero);
      if o.Fail? {
        return;
      }
      FitsWidths(Node(vals), dim);
      FillNested(vals, zero);
      ghost var e := Elements();
      flag := CONTINUOUS_FLAG;
      assert Elements() == e;
    }

    /** The fill_init_value loop of the nested create: row i of the fresh block receives vals[i]. */
    method FillNested(vals: seq<InitVal<T>>, zero: T)
      requires Valid() && buf != null && start == 0 && steps == RowMajorSteps(sizes) && Positive(sizes)
      requires buf.Length == Product(sizes) && Fits(Node(vals), sizes)
      requires Elements() == seq(Product(sizes), _ => zero)
      modifies buf
      ensures Elements() == Overlay(Node(vals), sizes, seq(Product(sizes), _ => zero))
    {
      ghost var n := Product(sizes);
      ContiguousIffRowMajor(sizes, steps);
      ContiguousGather(buf, 0, sizes, steps);
      ghost var before := buf[..];
      assert before == buf[0..n] == seq(n, _ => zero);
      FillRows(buf, start, steps, Node(vals), sizes);
      assert before[..0] == [] && before[n..] == [] && before[0..n] == before;
      assert buf[..] == Overlay(Node(vals), sizes, before);
      ContiguousGather(buf, 0, sizes, steps);
      assert buf[0..n] == buf[..];
    }

    /**
     * The rank-1 create from a list of values: an empty list is rejected
     * before anything changes; otherwise the values are copied into fresh
     * storage in order.
     */
    method CreateList(vals: seq<T>) returns (o: Outcome)
      requires Valid() && dim == 1
      modifies this
      ensures o.Fail? <==> |vals| == 0
      ensures o.Fail? ==> o.error == InvalidArgument && unchanged(this)
      ensures o.Pass? ==> Valid() && fresh(buf) && sizes == [|vals|] && steps == [1] && flag == CONTINUOUS_FLAG
      ensures o.Pass? ==> Elements() == vals
    {
      if |vals| == 0 {
        return Fail(InvalidArgument);
      }
      Reset();
      steps := steps[0 := 1];
      sizes := sizes[0 := |vals|];
      var n := Size();
      var m := MakeManagerUninit(n);
      raw, buf, start := m, m.data, m.origin;
      CopyConstructFromList(buf, start, vals, sizes[0]);
      flag := CONTINUOUS_FLAG;
      assert sizes == [|vals|] && steps == [1];
      assert sizes[1..] == [] && Product(sizes) == |vals|;
      ContiguousLayout(sizes, steps, 0, buf.Length);
      ContiguousGather(buf, 0, sizes, steps);
      assert vals[..|vals|] == vals;
      o := Pass;
    }

    /**
     * The private constructor of views and sub-matrices: a start, the
     * shared manager and buffer, and extents and strides; flagged as a view
     * with the continuity bit recomputed.
     */
    constructor FromParts(dim: nat, raw: MatrixData?<T>, buf: array?<T>, start: nat, sizes: seq<nat>, steps: seq<nat>)
      requires dim >= 1 && |sizes| == dim && |steps| == dim
      ensures this.dim == dim && this.raw == raw && this.buf == buf && this.start == start
      ensures this.sizes == sizes && this.steps == steps
      ensures IsView() && (IsContinuous() <==> IsContiguous(sizes, steps)) && Shaped()
    {
      this.dim := dim;
      this.raw := raw;
      this.buf := buf;
      this.start := start;
      this.sizes := sizes;
      this.steps := steps;
      flag := VIEW_FLAG;
      new;
      RecalcContinuous();
    }

    /**
     * operator[] of a rank-1 matrix: a negative index counts from the end;
     * the position of the element it names, or the exception.
     */
    function IndexElement(idx: int): (r: Result<nat>)
      reads this, raw, buf
      requires Valid() && dim == 1
      ensures !IsValid() ==> r == Failure(LogicError)
      ensures IsValid() ==> (r.Success? <==> 0 <= Normalised(idx, sizes[0]) < sizes[0])
      ensures IsValid() && r.Failure? ==> r.error == OutOfRange
      ensures r.Success? ==> buf != null && r.value < buf.Length && Normalised(idx, sizes[0]) < Product(sizes) &&
                             buf[r.value] == Elements()[Normalised(idx, sizes[0])]
    {
      if !IsValid() then Failure(LogicError)
      else
        var i := Normalised(idx, sizes[0]);
        if i >= sizes[0] || i < 0 then Failure(OutOfRange)
        else
          assert sizes[1..] == [];
          OffsetBounds(i, sizes, steps);
          Success(start + i * steps[0])
    }

    /**
     * operator[] of a matrix of rank >= 2: the sub-matrix of one leading
     * index, sharing the buffer; its elements are that index's run of the
     * row-major element sequence.
     */
    method IndexView(idx: int) returns (r: Result<Matrix<T>>)
      requires Valid() && dim >= 2
      ensures !IsValid() ==> r == Failure(LogicError)
      ensures IsValid() ==> (r.Success? <==> 0 <= Normalised(idx, sizes[0]) < sizes[0])
      ensures IsValid() && r.Failure? ==> r.error == OutOfRange
      ensures r.Success? ==> fresh(r.value) && r.value.Valid() && r.value.dim == dim - 1 && r.value.IsView()
      ensures r.Success? ==> r.value.raw == raw && r.value.buf == buf && buf != null
      ensures r.Success? ==> r.value.sizes == sizes[1..] && r.value.steps == steps[1..]
      ensures r.Success? ==> r.value.start == start + Normalised(idx, sizes[0]) * steps[0]
      ensures r.Success? ==>
                var i, w := Normalised(idx, sizes[0]), Product(sizes[1..]);
                (i + 1) * w <= Product(sizes) && r.value.Elements() == Elements()[i * w..(i + 1) * w]
    {
      if !IsValid() {
        return Failure(LogicError);
      }
      var i := Normalised(idx, sizes[0]);
      if i >= sizes[0] || i < 0 {
        return Failure(OutOfRange);
      }
      RowBlock(buf, start, sizes, steps, i);
      MulLe(0, i, steps[0]);
      var v := new Matrix.FromParts(dim - 1, raw, buf, start + i * steps[0], sizes[1..], steps[1..]);
      return Success(v);
    }

    /** The index lookup of at(): an invalid matrix is refused, otherwise the indices are walked from the start. */
    method Locate(ix: seq<int>) returns (r: Result<nat>)
      requires Valid() && |ix| <= dim
      ensures !IsValid() ==> r == Failure(LogicError)
      ensures IsValid() ==> (r.Success? <==> InRange(Normalise(ix, sizes), sizes[..|ix|]))
      ensures IsValid() && r.Failure? ==> r.error == OutOfRange
      ensures r.Success? ==> r.value == start + Dot(Normalise(ix, sizes), steps[..|ix|])
    {
      if !IsValid() {
        return Failure(LogicError);
      }
      r := Offset(ix, sizes, steps, start);
    }

    /** at() with one index per axis: the position of the element the normalised index names. */
    method At(ix: seq<int>) returns (r: Result<nat>)
      requires Valid() && |ix| == dim
      ensures !IsValid() ==> r == Failure(LogicError)
      ensures IsValid() ==> (r.Success? <==> InRange(Normalise(ix, sizes), sizes))
      ensures IsValid() && r.Failure? ==> r.error == OutOfRange
      ensures r.Success? ==> buf != null && InRange(Normalise(ix, sizes), sizes) && r.value < buf.Length &&
                             buf[r.value] == Cell(Normalise(ix, sizes))
      ensures r.Success? ==> r.value == start + Dot(Normalise(ix, sizes), steps)
    {
      assert sizes[..|ix|] == sizes && steps[..|ix|] == steps;
      r := Locate(ix);
      if r.Success? {
        var p := Normalise(ix, sizes);
        LinOffset(p, sizes, steps);
        OffsetBounds(Lin(p, sizes), sizes, steps);
      }
    }

    /**
     * at() with fewer indices than axes: the sub-matrix of the remaining
     * axes at the normalised prefix, sharing the buffer. Its cell q is the
     * parent's cell at the prefix followed by q.
     */
    method AtView(ix: seq<int>) returns (r: Result<Matrix<T>>)
      requires Valid() && |ix| < dim
      ensures !IsValid() ==> r == Failure(LogicError)
      ensures IsValid() ==> (r.Success? <==> InRange(Normalise(ix, sizes), sizes[..|ix|]))
      ensures IsValid() && r.Failure? ==> r.error == OutOfRange
      ensures r.Success? ==> fresh(r.value) && r.value.Valid() && r.value.dim == dim - |ix| && r.value.IsView()
      ensures r.Success? ==> r.value.raw == raw && r.value.buf == buf && buf != null
      ensures r.Success? ==> r.value.sizes == sizes[|ix|..] && r.value.steps == steps[|ix|..]
      ensures r.Success? ==> forall q :: InRange(q, r.value.sizes) ==>
                InRange(Normalise(ix, sizes) + q, sizes) && r.value.Cell(q) == Cell(Normalise(ix, sizes) + q)
    {
      var p :- Locate(ix);
      ghost var norm := Normalise(ix, sizes);
      var k := |ix|;
      PrefixLayout(norm, sizes, steps, start, buf.Length);
      var v := new Matrix.FromParts(dim - k, raw, buf, p, sizes[k..], steps[k..]);
      forall q | InRange(q, v.sizes)
        ensures InRange(norm + q, sizes) && v.Cell(q) == Cell(norm + q)
      {
        assert InRange(norm + q, sizes) by {
          forall j | 0 <= j < dim ensures 0 <= (norm + q)[j] < sizes[j] {
            if j < k { assert sizes[..k][j] == sizes[j]; } else { assert v.sizes[j - k] == sizes[j]; }
          }
        }
        DotConcat(norm, q, steps);
      }
      return Success(v);
    }

    /**
     * view(rngs): more ranges than axes are rejected; the const overload
     * then rejects an invalid matrix (the other one does not check). The
     * ranges narrow the leading axes as set_view_config computes; the view
     * keeps the strides and the buffer, is flagged as a view, and has its
     * continuity recomputed. Cell j of the view is cell lo + j of the
     * matrix, lo being the lower corner of the ranges.
     */
    method ViewOf(rngs: seq<Range>, isConst: bool) returns (r: Result<Matrix<T>>)
      requires Valid()
      ensures |rngs| > dim ==> r == Failure(InvalidArgument)
      ensures |rngs| <= dim && isConst && !IsValid() ==> r == Failure(LogicError)
      ensures |rngs| <= dim && !(isConst && !IsValid()) ==>
                (r.Success? <==> forall i :: 0 <= i < |rngs| ==> RangeError(rngs[i], sizes[i]).None?)
      ensures |rngs| <= dim && !(isConst && !IsValid()) && r.Failure? ==>
                exists i :: 0 <= i < |rngs| && RangeError(rngs[i], sizes[i]).Some? &&
                  (forall j :: 0 <= j < i ==> RangeError(rngs[j], sizes[j]).None?) &&
                  r.error == RangeError(rngs[i], sizes[i]).value
      ensures r.Success? ==> fresh(r.value) && r.value.Valid() && r.value.dim == dim && r.value.IsView()
      ensures r.Success? ==> r.value.raw == raw && r.value.buf == buf && r.value.steps == steps
      ensures r.Success? ==> r.value.sizes == ViewSizes(rngs, sizes) &&
                             r.value.start == start + Dot(LowerCorner(rngs, sizes), steps)
      ensures r.Success? ==> (r.value.IsContinuous() <==> IsContiguous(r.value.sizes, steps))
      ensures r.Success? && buf != null ==> forall j :: InRange(j, r.value.sizes) ==>
                InRange(Shifted(j, LowerCorner(rngs, sizes)), sizes) &&
                r.value.Cell(j) == Cell(Shifted(j, LowerCorner(rngs, sizes)))
    {
      if |rngs| > dim {
        return Failure(InvalidArgument);
      }
      if isConst && !IsValid() {
        return Failure(LogicError);
      }
      r := MakeView(rngs);
    }

    /** The ranges checked and applied: the body of view(rngs) once the rank and validity checks have passed. */
    method MakeView(rngs: seq<Range>) returns (r: Result<Matrix<T>>)
      requires Valid() && |rngs| <= dim
      ensures r.Success? <==> forall i :: 0 <= i < |rngs| ==> RangeError(rngs[i], sizes[i]).None?
      ensures r.Failure? ==>
                exists i :: 0 <= i < |rngs| && RangeError(rngs[i], sizes[i]).Some? &&
                  (forall j :: 0 <= j < i ==> RangeError(rngs[j], sizes[j]).None?) &&
                  r.error == RangeError(rngs[i], sizes[i]).value
      ensures r.Success? ==> fresh(r.value) && r.value.Valid() && r.value.dim == dim && r.value.IsView()
      ensures r.Success? ==> r.value.raw == raw && r.value.buf == buf && r.value.steps == steps
      ensures r.Success? ==> r.value.sizes == ViewSizes(rngs, sizes) &&
                             r.value.start == start + Dot(LowerCorner(rngs, sizes), steps)
      ensures r.Success? ==> (r.value.IsContinuous() <==> IsContiguous(r.value.sizes, steps))
      ensures r.Success? && buf != null ==> forall j :: InRange(j, r.value.sizes) ==>
                InRange(Shifted(j, LowerCorner(rngs, sizes)), sizes) &&
                r.value.Cell(j) == Cell(Shifted(j, LowerCorner(rngs, sizes)))
    {
      ViewConfigMeaning(rngs, sizes, steps, start);
      var res := SetViewConfig(rngs, sizes, steps, start);
      if res.Failure? {
        return Failure(res.error);
      }
      var cfg := res.value;
      ghost var lo := LowerCorner(rngs, sizes);
      DotNonNegative(lo, steps);
      var v := new Matrix.FromParts(dim, raw, buf, cfg.1, cfg.0, steps);
      if buf != null {
        ViewLayout(rngs, sizes, steps, start, buf.Length);
        assert v.Valid();
        ViewCells(this, v, rngs);
      }
      return Success(v);
    }

    /**
     * row_view(idx) of a rank-2 matrix, the view {idx, idx} x {0, -1}: the
     * 1 x cols view of one row; out_of_range for a row outside the first
     * axis, then invalid_argument when there are no columns.
     */
    method RowView(idx: int, isConst: bool) returns (r: Result<Matrix<T>>)
      requires Valid() && dim == 2
      ensures isConst && !IsValid() ==> r == Failure(LogicError)
      ensures !(isConst && !IsValid()) ==>
                (r.Success? <==> 0 <= Normalised(idx, sizes[0]) < sizes[0] && sizes[1] >= 1)
      ensures !(isConst && !IsValid()) && r.Failure? ==>
                r.error == if 0 <= Normalised(idx, sizes[0]) < sizes[0] then InvalidArgument else OutOfRange
      ensures r.Success? ==> fresh(r.value) && r.value.Valid() && r.value.IsView() && r.value.buf == buf
      ensures r.Success? ==> r.value.sizes == [1, sizes[1]] && r.value.steps == steps
      ensures r.Success? && buf != null ==> forall j :: 0 <= j < sizes[1] ==>
                InRange([Normalised(idx, sizes[0]), j], sizes) &&
                r.value.Cell([0, j]) == Cell([Normalised(idx, sizes[0]), j])
    {
      var rngs := [Range(idx, idx), FullRange()];
      r := ViewOf(rngs, isConst);
      var lo := LowerCorner(rngs, sizes);
      assert lo == [Normalised(idx, sizes[0]), 0];
      if !(isConst && !IsValid()) {
        assert RangeError(rngs[0], sizes[0]) ==
               if 0 <= Normalised(idx, sizes[0]) < sizes[0] then None else Some(OutOfRange);
        FullRangeIsWholeAxis(sizes[1]);
      }
      if r.Success? {
        assert ViewSizes(rngs, sizes) == [1, sizes[1]];
        if buf != null {
          forall j | 0 <= j < sizes[1]
            ensures InRange([Normalised(idx, sizes[0]), j], sizes) &&
                    r.value.Cell([0, j]) == Cell([Normalised(idx, sizes[0]), j])
          {
            assert InRange([0, j], r.value.sizes);
            assert Shifted([0, j], lo) == [Normalised(idx, sizes[0]), j];
          }
        }
      }
    }

    /**
     * col_view(idx) of a rank-2 matrix, the view {0, -1} x {idx, idx}: the
     * rows x 1 view of one column; invalid_argument when there are no rows,
     * then out_of_range for a column outside the second axis.
     */
    method ColView(idx: int, isConst: bool) returns (r: Result<Matrix<T>>)
      requires Valid() && dim == 2
      ensures isConst && !IsValid() ==> r == Failure(LogicError)
      ensures !(isConst && !IsValid()) ==>
                (r.Success? <==> sizes[0] >= 1 && 0 <= Normalised(idx, sizes[1]) < sizes[1])
      ensures !(isConst && !IsValid()) && r.Failure? ==>
                r.error == if sizes[0] >= 1 then OutOfRange else InvalidArgument
      ensures r.Success? ==> fresh(r.value) && r.value.Valid() && r.value.IsView() && r.value.buf == buf
      ensures r.Success? ==> r.value.sizes == [sizes[0], 1] && r.value.steps == steps
      ensures r.Success? && buf != null ==> forall i :: 0 <= i < sizes[0] ==>
                InRange([i, Normalised(idx, sizes[1])], sizes) &&
                r.value.Cell([i, 0]) == Cell([i, Normalised(idx, sizes[1])])
    {
      var rngs := [FullRange(), Range(idx, idx)];
      r := ViewOf(rngs, isConst);
      var lo := LowerCorner(rngs, sizes);
      assert lo == [0, Normalised(idx, sizes[1])];
      if !(isConst && !IsValid()) {
        FullRangeIsWholeAxis(sizes[0]);
        assert RangeError(rngs[1], sizes[1]) ==
               if 0 <= Normalised(idx, sizes[1]) < sizes[1] then None else Some(OutOfRange);
      }
      if r.Success? {
        assert ViewSizes(rngs, sizes) == [sizes[0], 1];
        if buf != null {
          forall i | 0 <= i < sizes[0]
            ensures InRange([i, Normalised(idx, sizes[1])], sizes) &&
                    r.value.Cell([i, 0]) == Cell([i, Normalised(idx, sizes[1])])
          {
            assert InRange([i, 0], r.value.sizes);
            assert Shifted([i, 0], lo) == [i, Normalised(idx, sizes[1])];
          }
        }
      }
    }

    /**
     * Copy assignment: a shallow copy that shares the buffer, with the view
     * bit added to the source's flags.
     */
    method Assign(mat: Matrix<T>)
      requires Valid() && mat.Valid() && mat.dim == dim
      modifies this
      ensures Valid() && IsView() && (IsContinuous() <==> old(mat.IsContinuous()))
      ensures raw == old(mat.raw) && buf == old(mat.buf) && start == old(mat.start)
      ensures sizes == old(mat.sizes) && steps == old(mat.steps) && flag == old(mat.flag) | VIEW_FLAG
      ensures buf != null ==> Elements() == old(mat.Elements())
    {
      BitSetView(mat.flag);
      sizes := mat.sizes;
      steps := mat.steps;
      raw := mat.raw;
      buf := mat.buf;
      start := mat.start;
      flag := mat.flag | VIEW_FLAG;
    }

    /**
     * The copy constructor, and the move constructor too: both assign from
     * their argument by copy assignment.
     */
    constructor Copy(mat: Matrix<T>)
      requires mat.Valid()
      ensures dim == mat.dim && Valid() && IsView() && (IsContinuous() <==> mat.IsContinuous())
      ensures raw == mat.raw && buf == mat.buf && start == mat.start
      ensures sizes == mat.sizes && steps == mat.steps && flag == mat.flag | VIEW_FLAG
      ensures buf != null ==> Elements() == mat.Elements()
    {
      BitSetView(mat.flag);
      dim := mat.dim;
      sizes := mat.sizes;
      steps := mat.steps;
      raw := mat.raw;
      buf := mat.buf;
      start := mat.start;
      flag := mat.flag | VIEW_FLAG;
    }

    /**
     * Move assignment: takes the source's fields and flags as they are,
     * then leaves the source without a buffer and without flags (its
     * extents and strides stay). Moving a matrix into itself empties it.
     */
    method MoveAssign(mat: Matrix<T>)
      requires Valid() && mat.Valid() && mat.dim == dim
      modifies this, mat
      ensures Valid() && mat.Valid()
      ensures mat.raw == null && mat.buf == null && mat.start == 0 && mat.flag == 0
      ensures mat.sizes == old(mat.sizes) && mat.steps == old(mat.steps)
      ensures mat != this ==> raw == old(mat.raw) && buf == old(mat.buf) && start == old(mat.start)
      ensures mat != this ==> sizes == old(mat.sizes) && steps == old(mat.steps) && flag == old(mat.flag)
      ensures mat != this && buf != null ==> Elements() == old(mat.Elements())
    {
      sizes := mat.sizes;
      steps := mat.steps;
      raw := mat.raw;
      buf := mat.buf;
      start := mat.start;
      flag := mat.flag;
      mat.raw := null;
      mat.buf := null;
      mat.start := 0;
      mat.flag := 0;
    }

    /** begin(): the iterator at the first element. */
    method Begin() returns (it: MatIterator<T>)
      requires Valid() && buf != null
      ensures fresh(it) && it.Valid() && it.buf == buf && it.base == start && it.ptr == start
      ensures it.sizes == sizes && it.steps == steps && it.Pos() == 0
    {
      StepsPositive(sizes, steps);
      assert (start - start) % steps[0] == 0 && (start - start) / steps[0] == 0;
      it := new MatIterator(buf, start, start, sizes, steps);
      LinLeading(0, sizes, steps);
      assert 0 * Product(sizes[1..]) == 0;
    }

    /** end(): the iterator one leading index past the last row, at position Product(sizes). */
    method End() returns (it: MatIterator<T>)
      requires Valid() && buf != null
      ensures fresh(it) && it.Valid() && it.buf == buf && it.base == start
      ensures it.ptr == start + sizes[0] * steps[0]
      ensures it.sizes == sizes && it.steps == steps && it.Pos() == Product(sizes)
    {
      StepsPositive(sizes, steps);
      DivModOf(sizes[0], steps[0], 0);
      it := new MatIterator(buf, start, start + sizes[0] * steps[0], sizes, steps);
      LinLeading(sizes[0], sizes, steps);
    }

    /**
     * clone(): a fresh continuous matrix with the same extents, row-major
     * strides and the same row-major element sequence. A continuous source
     * is copied as one run; any other is read through its iterator.
     */
    method Clone() returns (r: Result<Matrix<T>>)
      requires Valid()
      ensures r.Failure? <==> !IsValid()
      ensures r.Failure? ==> r.error == LogicError
      ensures r.Success? ==> fresh(r.value) && fresh(r.value.buf) && r.value.Valid() && r.value.dim == dim
      ensures r.Success? ==> r.value.sizes == sizes && r.value.steps == RowMajorSteps(sizes)
      ensures r.Success? ==> r.value.flag == CONTINUOUS_FLAG && r.value.start == 0
      ensures r.Success? ==> buf != null && r.value.Elements() == Elements()
    {
      if !IsValid() {
        return Failure(LogicError);
      }
      var res := CloneOf();
      return Success(res);
    }

    /** The copy clone() makes of a valid matrix: row-major strides over a fresh buffer holding the elements. */
    method CloneOf() returns (res: Matrix<T>)
      requires Valid() && buf != null
      ensures fresh(res) && fresh(res.buf) && res.Valid() && res.dim == dim
      ensures res.sizes == sizes && res.steps == RowMajorSteps(sizes)
      ensures res.flag == CONTINUOUS_FLAG && res.start == 0 && res.Elements() == Elements()
    {
      res := new Matrix<T>(dim);
      res.flag := CONTINUOUS_FLAG;
      var sz, st := SetSizeAndStep(sizes);
      res.sizes, res.steps := sz, st;
      var n := res.Size();
      var m := CopyManager(n);
      res.raw, res.buf, res.start := m, m.data, m.origin;
      ProductPositive(sizes);
      ContiguousLayout(res.sizes, res.steps, 0, res.buf.Length);
      ContiguousGather(res.buf, 0, res.sizes, res.steps);
    }

    /**
     * The manager of a clone: a continuous matrix is copied as one run by
     * the copying constructor of the manager; any other is read into fresh
     * uninitialised storage through its iterator.
     */
    method CopyManager(n: nat) returns (m: MatrixData<T>)
      requires Valid() && buf != null && n == Product(sizes)
      ensures fresh(m) && fresh(m.data) && m.Valid() && m.data != null && m.origin == 0
      ensures n <= m.data.Length && m.data[0..n] == Elements()
    {
      if IsContinuous() {
        ContiguousGather(buf, start, sizes, steps);
        var c := MatrixData.FromConst(n, buf, start);
        m := c.value;
      } else {
        m := MakeManagerUninit(n);
        ReadInto(m.data);
        assert m.data[0..n] == m.data[..];
      }
    }

    /**
     * copy_construct_uninit(dst, begin(), size()): the elements read through
     * the iterator in row-major order fill dst.
     */
    method ReadInto(dst: array<T>)
      requires Valid() && buf != null && dst != buf && dst.Length == Product(sizes)
      modifies dst
      ensures dst[..] == Elements()
    {
      var it := Begin();
      CopyConstructUninit(dst, 0, it, dst.Length);
      assert forall p :: 0 <= p < dst.Length ==> dst[p] == Elements()[p];
    }

    /**
     * reshape(newSizes): only a valid, continuous matrix can be reshaped,
     * and only to the same number of elements; it then gets the new
     * extents with row-major strides and keeps its buffer and elements.
     * Reshaping back to the old extents restores the old strides.
     */
    method Reshape(newSizes: seq<nat>) returns (o: Outcome)
      requires Valid() && |newSizes| == dim
      modifies this
      ensures !IsValid() || !IsContinuous() ==> o == Fail(LogicError)
      ensures IsValid() && IsContinuous() ==> (o.Pass? <==> Product(newSizes) == Product(old(sizes)))
      ensures IsValid() && IsContinuous() && Product(newSizes) != Product(old(sizes)) ==> o == Fail(InvalidArgument)
      ensures o.Fail? ==> (o.error == LogicError || o.error == InvalidArgument) && unchanged(this)
      ensures o.Pass? ==> Valid() && buf != null && sizes == newSizes && steps == RowMajorSteps(newSizes)
      ensures o.Pass? ==> raw == old(raw) && buf == old(buf) && start == old(start) && flag == old(flag)
      ensures o.Pass? ==> Elements() == old(Elements())
      ensures o.Pass? && newSizes == old(sizes) ==> steps == old(steps)
    {
      if !IsValid() {
        return Fail(LogicError);
      }
      if !IsContinuous() {
        return Fail(LogicError);
      }
      var tot := ProductOf(newSizes);
      var n := Size();
      if tot != n {
        return Fail(InvalidArgument);
      }
      ContiguousGather(buf, start, sizes, steps);
      ContiguousIffRowMajor(sizes, steps);
      ghost var before := Elements();
      ProductPositive(sizes);
      ProductPositiveParts(newSizes);
      sizes, steps := SetSizeAndStep(newSizes);
      ContiguousLayout(sizes, steps, start, buf.Length);
      ContiguousGather(buf, start, sizes, steps);
      return Pass;
    }

    /**
     * reinterpret(newSizes) for the same element type (of elemSize bytes):
     * a valid, continuous matrix is seen with another rank and extents of
     * the same byte size, sharing its buffer, start and flags, with
     * row-major strides.
     */
    method Reinterpret(newSizes: seq<nat>, elemSize: nat) returns (r: Result<Matrix<T>>)
      requires Valid() && |newSizes| >= 1 && elemSize >= 1
      ensures !IsValid() || !IsContinuous() ==> r == Failure(LogicError)
      ensures IsValid() && IsContinuous() ==> (r.Success? <==> Product(newSizes) == Product(sizes))
      ensures IsValid() && IsContinuous() && Product(newSizes) != Product(sizes) ==> r == Failure(InvalidArgument)
      ensures r.Failure? ==> r.error == LogicError || r.error == InvalidArgument
      ensures r.Success? ==> fresh(r.value) && r.value.Valid() && r.value.dim == |newSizes|
      ensures r.Success? ==> r.value.raw == raw && r.value.buf == buf && r.value.start == start
      ensures r.Success? ==> r.value.sizes == newSizes && r.value.steps == RowMajorSteps(newSizes)
      ensures r.Success? ==> r.value.flag == flag && buf != null && r.value.Elements() == Elements()
    {
      if !IsValid() {
        return Failure(LogicError);
      }
      if !IsContinuous() {
        return Failure(LogicError);
      }
      var tot := ProductOf(newSizes);
      var n := Size();
      if tot * elemSize != n * elemSize {
        return Failure(InvalidArgument);
      }
      assert tot == n by {
        if tot < n { MulLe(tot + 1, n, elemSize); } else if tot > n { MulLe(n + 1, tot, elemSize); }
      }
      var res := Reinterpreted(newSizes);
      return Success(res);
    }

    /** The matrix built by a successful reinterpret: the same storage under new extents with row-major strides. */
    method Reinterpreted(newSizes: seq<nat>) returns (res: Matrix<T>)
      requires Valid() && buf != null && IsContinuous() && |newSizes| >= 1 && Product(newSizes) == Product(sizes)
      ensures fresh(res) && res.Valid() && res.dim == |newSizes|
      ensures res.raw == raw && res.buf == buf && res.start == start
      ensures res.sizes == newSizes && res.steps == RowMajorSteps(newSizes)
      ensures res.flag == flag && res.Elements() == Elements()
    {
      res := new Matrix<T>(|newSizes|);
      ContiguousGather(buf, start, sizes, steps);
      ProductPositive(sizes);
      ProductPositiveParts(newSizes);
      res.raw, res.buf, res.start := raw, buf, start;
      var sz, st := SetSizeAndStep(newSizes);
      res.sizes, res.steps := sz, st;
      res.flag := flag;
      ContiguousLayout(res.sizes, res.steps, start, buf.Length);
      ContiguousGather(buf, start, res.sizes, res.steps);
    }

    /**
     * raw_end(): the position one past the last element of a continuous
     * matrix; a non-continuous one has no such position.
     */
    method RawEnd() returns (r: Result<nat>)
      requires Valid()
      ensures r.Failure? <==> !IsContinuous()
      ensures r.Failure? ==> r.error == LogicError
      ensures r.Success? ==> r.value == start + Product(sizes)
      ensures r.Success? && buf != null ==> r.value <= buf.Length && buf[start..r.value] == Elements()
    {
      if !IsContinuous() {
        return Failure(LogicError);
      }
      var n := Size();
      if buf != null {
        ContiguousGather(buf, start, sizes, steps);
      }
      return Success(start + n);
    }

    /** front(): the position of the first row-major element. */
    function Front(): (r: nat)
      reads this, raw, buf
      requires Valid() && buf != null
      ensures r < buf.Length && buf[r] == Elements()[0]
    {
      ProductPositive(sizes);
      ZeroOffset(sizes, steps);
      OffsetBounds(0, sizes, steps);
      assert Elements()[0] == ElementAt(buf, start, sizes, steps, 0);
      start
    }

    /**
     * back() as written: *--end(). Prefix -- returns the iterator as it was
     * before the move, so the dereference is of the end iterator and is
     * refused whatever the matrix holds.
     */
    method BackAsWritten() returns (r: Result<T>)
      requires Valid() && buf != null
      ensures r == Failure(OutOfRange)
    {
      var e := End();
      var before := e.PreDecrement();
      r := before.value.Deref();
    }

    /** back() as intended: the element one position before end(), the last row-major element. */
    method Back() returns (r: Result<T>)
      requires Valid() && buf != null
      ensures r.Success? && r.value == Elements()[|Elements()| - 1]
    {
      var e := End();
      var o := e.PostDecrement();
      ProductPositive(sizes);
      r := e.Deref();
    }

    /**
     * transpose(): a view cannot change its layout, so only a square view
     * is transposed, in place, by exchanging at(i, j) and at(j, i) below
     * the diagonal row by row; any other matrix is move-assigned its
     * transposed() copy and leaves its old buffer as it was.
     */
    method Transpose(zero: T) returns (o: Outcome)
      requires Valid() && dim == 2
      modifies this, buf
      ensures Valid()
      ensures old(IsView()) && old(sizes[0] != sizes[1]) ==> o == Fail(LogicError)
      ensures old(IsView()) && old(sizes[0] == sizes[1]) ==>
                (o.Fail? <==> !old(IsValid()) && old(sizes[0]) >= 2) && (o.Fail? ==> o.error == LogicError)
      ensures !old(IsView()) ==> (o.Fail? <==> !old(IsValid()))
      ensures !old(IsView()) && o.Fail? ==> o.error == (if old(Positive(sizes)) then LogicError else InvalidArgument)
      ensures old(IsView()) || o.Fail? ==> unchanged(this)
      ensures o.Fail? && buf != null ==> buf[..] == old(buf[..])
      ensures o.Pass? && old(IsView()) && buf != null ==>
                forall a, b :: 0 <= a < sizes[0] && 0 <= b < sizes[0] ==> Cell([a, b]) == old(Cell([b, a]))
      ensures o.Pass? && old(IsView()) && buf != null ==>
                forall k :: 0 <= k < buf.Length && k !in Footprint(start, sizes, steps) ==> buf[k] == old(buf[k])
      ensures o.Pass? && !old(IsView()) ==>
                buf != null && fresh(buf) && sizes == [old(sizes[1]), old(sizes[0])] && IsContinuous()
      ensures o.Pass? && !old(IsView()) ==>
                forall a, b :: 0 <= a < old(sizes[0]) && 0 <= b < old(sizes[1]) ==> Cell([b, a]) == old(Cell([a, b]))
      ensures !old(IsView()) && old(buf) != null ==> old(buf)[..] == old(buf[..])
    {
      if IsView() {
        if sizes[1] != sizes[0] {
          return Fail(LogicError);
        }
        if !IsValid() {
          // at() refuses an invalid matrix; the loops first call it at (1, 0).
          if sizes[0] >= 2 {
            return Fail(LogicError);
          }
          return Pass;
        }
        SwapBelowDiagonal();
        return Pass;
      }
      var t := Transposed(zero);
      if t.Failure? {
        return Fail(t.error);
      }
      label pre:
      MoveAssign(t.value);
      forall a, b | 0 <= a < old(sizes[0]) && 0 <= b < old(sizes[1])
        ensures Cell([b, a]) == old(Cell([a, b]))
      {
        assert Cell([b, a]) == old@pre(t.value.Cell([b, a]));
      }
      return Pass;
    }

    /** The loops of transpose() on a valid square matrix: exchange at(i, j) and at(j, i) for j < i. */
    method SwapBelowDiagonal()
      requires Valid() && buf != null && dim == 2 && sizes[0] == sizes[1]
      modifies buf
      ensures forall a, b :: 0 <= a < sizes[0] && 0 <= b < sizes[0] ==> Cell([a, b]) == old(Cell([b, a]))
      ensures forall k :: 0 <= k < buf.Length && k !in Footprint(start, sizes, steps) ==> buf[k] == old(buf[k])
    {
      var n := sizes[0];
      ghost var c0 := buf[..];
      ghost var fp := Footprint(start, sizes, steps);
      TransposeStart(c0, start, sizes, steps);
      var i := 0;
      while i < n
        invariant 0 <= i <= n
        invariant TransposeState(buf[..], c0, start, steps, n, i, 0)
        invariant forall k :: 0 <= k < buf.Length && k !in fp ==> buf[k] == c0[k]
      {
        SwapRow(i, c0);
        NextRow(buf[..], c0, start, steps, n, i);
        i := i + 1;
      }
      forall a, b | 0 <= a < n && 0 <= b < n ensures Cell([a, b]) == old(Cell([b, a])) {
        assert buf[..][Addr2(start, steps, a, b)] == c0[Addr2(start, steps, b, a)];
      }
    }

    /** Row i of the loops of transpose(): exchange at(i, j) and at(j, i) for every j < i. */
    method SwapRow(i: nat, ghost c0: seq<T>)
      requires Valid() && buf != null && dim == 2 && sizes[0] == sizes[1] && i < sizes[0]
      requires TransposeState(buf[..], c0, start, steps, sizes[0], i, 0)
      requires forall k :: 0 <= k < buf.Length && k !in Footprint(start, sizes, steps) ==> buf[k] == c0[k]
      modifies buf
      ensures TransposeState(buf[..], c0, start, steps, sizes[0], i, i)
      ensures forall k :: 0 <= k < buf.Length && k !in Footprint(start, sizes, steps) ==> buf[k] == c0[k]
    {
      ghost var fp := Footprint(start, sizes, steps);
      var j := 0;
      while j < i
        invariant 0 <= j <= i
        invariant TransposeState(buf[..], c0, start, steps, sizes[0], i, j)
        invariant forall k :: 0 <= k < buf.Length && k !in fp ==> buf[k] == c0[k]
      {
        SwapPair(i, j, c0);
        j := j + 1;
      }
    }

    /** One step of row i: exchange at(i, j) and at(j, i) through their offsets. */
    method SwapPair(i: nat, j: nat, ghost c0: seq<T>)
      requires Valid() && buf != null && dim == 2 && sizes[0] == sizes[1] && j < i < sizes[0]
      requires TransposeState(buf[..], c0, start, steps, sizes[0], i, j)
      requires forall k :: 0 <= k < buf.Length && k !in Footprint(start, sizes, steps) ==> buf[k] == c0[k]
      modifies buf
      ensures TransposeState(buf[..], c0, start, steps, sizes[0], i, j + 1)
      ensures forall k :: 0 <= k < buf.Length && k !in Footprint(start, sizes, steps) ==> buf[k] == c0[k]
    {
      assert Normalise([i, j], sizes) == [i, j] && Normalise([j, i], sizes) == [j, i];
      var p := At([i, j]);
      var q := At([j, i]);
      CellInFootprint([i, j], sizes, steps, start, buf.Length);
      CellInFootprint([j, i], sizes, steps, start, buf.Length);
      ghost var prev := buf[..];
      ghost var pv, qv := Addr2(start, steps, i, j), Addr2(start, steps, j, i);
      assert p.value == pv && q.value == qv;
      var tmp := buf[p.value];
      buf[p.value] := buf[q.value];
      buf[q.value] := tmp;
      assert buf[..] == prev[pv := prev[qv]][qv := prev[pv]];
      SwapStep(prev, buf[..], c0, start, sizes, steps, i, j);
    }

    /**
     * transposed(): for rank 2, a fresh cols x rows matrix whose cell
     * (j, i) is cell (i, j); for rank 1, the clone reinterpreted as one
     * column of size() rows.
     */
    method Transposed(zero: T) returns (r: Result<Matrix<T>>)
      requires Valid() && dim <= 2
      ensures r.Failure? <==> !IsValid()
      ensures r.Failure? ==> r.error == (if dim == 2 && !Positive(sizes) then InvalidArgument else LogicError)
      ensures r.Success? ==> fresh(r.value) && fresh(r.value.buf) && r.value.Valid() && r.value.dim == 2
      ensures r.Success? ==> buf != null && r.value.buf != null && r.value.IsContinuous()
      ensures r.Success? && dim == 2 ==> r.value.sizes == [sizes[1], sizes[0]]
      ensures r.Success? && dim == 2 ==>
                forall a, b :: 0 <= a < sizes[0] && 0 <= b < sizes[1] ==> r.value.Cell([b, a]) == Cell([a, b])
      ensures r.Success? && dim == 1 ==> r.value.sizes == [sizes[0], 1]
      ensures r.Success? && dim == 1 ==> forall a :: 0 <= a < sizes[0] ==> r.value.Cell([a, 0]) == Cell([a])
    {
      if dim == 2 {
        r := TransposedCopy(zero);
      } else {
        r := TransposedColumn();
      }
    }

    /** The rank-2 transposed(): a fresh cols x rows matrix, filled by res.at(j, i) = at(i, j). */
    method TransposedCopy(zero: T) returns (r: Result<Matrix<T>>)
      requires Valid() && dim == 2
      ensures r.Failure? <==> !IsValid()
      ensures r.Failure? ==> r.error == (if !Positive(sizes) then InvalidArgument else LogicError)
      ensures r.Success? ==> fresh(r.value) && fresh(r.value.buf) && r.value.Valid() && r.value.dim == 2
      ensures r.Success? ==> buf != null && r.value.buf != null && r.value.IsContinuous()
      ensures r.Success? ==> r.value.sizes == [sizes[1], sizes[0]]
      ensures r.Success? ==>
                forall a, b :: 0 <= a < sizes[0] && 0 <= b < sizes[1] ==> r.value.Cell([b, a]) == Cell([a, b])
    {
      var res := new Matrix<T>(2);
      var o := res.Create2(sizes[1], sizes[0], zero);
      if o.Fail? {
        return Failure(o.error);
      }
      if !IsValid() {
        // The first at(0, 0) refuses an invalid matrix.
        assert Positive(sizes);
        return Failure(LogicError);
      }
      CopyTransposed(res);
      return Success(res);
    }

    /** The rank-1 transposed(): the clone reinterpreted as size() rows of one column. */
    method TransposedColumn() returns (r: Result<Matrix<T>>)
      requires Valid() && dim == 1
      ensures r.Failure? <==> !IsValid()
      ensures r.Failure? ==> r.error == LogicError
      ensures r.Success? ==> fresh(r.value) && fresh(r.value.buf) && r.value.Valid() && r.value.dim == 2
      ensures r.Success? ==> buf != null && r.value.buf != null && r.value.IsContinuous()
      ensures r.Success? ==> r.value.sizes == [sizes[0], 1]
      ensures r.Success? ==> forall a :: 0 <= a < sizes[0] ==> r.value.Cell([a, 0]) == Cell([a])
    {
      var c :- Clone();
      var n := Size();
      // The same element type on both sides: the byte sizes agree exactly when the counts do.
      r := c.Reinterpret([n, 1], 1);
      assert [n, 1][1..] == [1] && [1][1..] == [];
      assert Product([n, 1]) == n;
      assert r.Success?;
      ColumnCells(r.value);
    }

    /** A column of sizes[0] rows holding the elements of this rank-1 matrix has cell (a, 0) equal to cell a. */
    lemma ColumnCells(col: Matrix<T>)
      requires Valid() && buf != null && dim == 1
      requires col.Valid() && col.buf != null && col.sizes == [sizes[0], 1] && col.Elements() == Elements()
      ensures forall a :: 0 <= a < sizes[0] ==> col.Cell([a, 0]) == Cell([a])
    {
      forall a | 0 <= a < sizes[0] ensures col.Cell([a, 0]) == Cell([a]) {
        assert InRange([a, 0], col.sizes) && InRange([a], sizes);
        col.CellIsElement([a, 0]);
        CellIsElement([a]);
        Index2(a, 0, sizes[0], 1, col.steps[0]);
        Index1(a, sizes[0], steps[0]);
      }
    }

    /** The loops of the rank-2 transposed(): res.at(j, i) = at(i, j) for every cell. */
    method CopyTransposed(res: Matrix<T>)
      requires Valid() && buf != null && dim == 2
      requires res.Valid() && res.buf != null && res.buf != buf && res.dim == 2 && res.sizes == [sizes[1], sizes[0]]
      modifies res.buf
      ensures forall a, b :: 0 <= a < sizes[0] && 0 <= b < sizes[1] ==> res.Cell([b, a]) == Cell([a, b])
    {
      var rows, cols := sizes[0], sizes[1];
      var i := 0;
      while i < rows
        invariant 0 <= i <= rows
        invariant TransposedUpTo(res.buf[..], res.start, res.steps, buf[..], start, steps, rows, cols, i, 0)
      {
        var j := 0;
        while j < cols
          invariant 0 <= j <= cols
          invariant TransposedUpTo(res.buf[..], res.start, res.steps, buf[..], start, steps, rows, cols, i, j)
        {
          CopyCell(res, i, j);
          j := j + 1;
        }
        CopyNextRow(res.buf[..], res.start, res.steps, buf[..], start, steps, rows, cols, i);
        i := i + 1;
      }
      forall a, b | 0 <= a < rows && 0 <= b < cols ensures res.Cell([b, a]) == Cell([a, b]) {
        assert res.buf[..][Addr2(res.start, res.steps, b, a)] == buf[..][Addr2(start, steps, a, b)];
      }
    }

    /** One turn of the inner loop of the rank-2 transposed(): res.at(j, i) = at(i, j). */
    method CopyCell(res: Matrix<T>, i: nat, j: nat)
      requires Valid() && buf != null && dim == 2 && i < sizes[0] && j < sizes[1]
      requires res.Valid() && res.buf != null && res.buf != buf && res.dim == 2 && res.sizes == [sizes[1], sizes[0]]
      requires TransposedUpTo(res.buf[..], res.start, res.steps, buf[..], start, steps, sizes[0], sizes[1], i, j)
      modifies res.buf
      ensures TransposedUpTo(res.buf[..], res.start, res.steps, buf[..], start, steps, sizes[0], sizes[1], i, j + 1)
    {
      assert Normalise([i, j], sizes) == [i, j] && Normalise([j, i], res.sizes) == [j, i];
      var p := At([i, j]);
      var q := res.At([j, i]);
      ghost var prev := res.buf[..];
      res.buf[q.value] := buf[p.value];
      CopyStep(prev, res.buf[..], res.start, res.sizes, res.steps, buf[..], start, sizes, steps, i, j);
    }
  }

  /** Cell j of a view made by view(rngs) is cell lo + j of the matrix it was cut from. */
  lemma ViewCells<T(0)>(m: Matrix<T>, v: Matrix<T>, rngs: seq<Range>)
    requires m.Valid() && m.buf != null && |rngs| <= m.dim
    requires forall i :: 0 <= i < |rngs| ==> RangeError(rngs[i], m.sizes[i]).None?
    requires v.Valid() && v.buf == m.buf && v.steps == m.steps && v.sizes == ViewSizes(rngs, m.sizes)
    requires v.start == m.start + Dot(LowerCorner(rngs, m.sizes), m.steps)
    ensures forall j :: InRange(j, v.sizes) ==>
              InRange(Shifted(j, LowerCorner(rngs, m.sizes)), m.sizes) &&
              v.Cell(j) == m.Cell(Shifted(j, LowerCorner(rngs, m.sizes)))
  {
    forall j | InRange(j, v.sizes)
      ensures InRange(Shifted(j, LowerCorner(rngs, m.sizes)), m.sizes) &&
              v.Cell(j) == m.Cell(Shifted(j, LowerCorner(rngs, m.sizes)))
    {
      ViewCell(rngs, m.sizes, m.steps, m.start, j);
    }
  }

  /** The indices of at() after the negative ones have been counted from the end of their axes. */
  function Normalise(ix: seq<int>, sizes: seq<nat>): (n: seq<int>)
    requires |ix| <= |sizes|
    ensures |n| == |ix| && forall i :: 0 <= i < |ix| ==> n[i] == Normalised(ix[i], sizes[i])
  {
    seq(|ix|, i requires 0 <= i < |ix| => Normalised(ix[i], sizes[i]))
  }

  /** The product loop of size(), reshape() and reinterpret(): the number of elements of the extents. */
  method ProductOf(s: seq<nat>) returns (tot: nat)
    ensures tot == Product(s)
  {
    tot := 1;
    var i := 0;
    while i < |s|
      invariant 0 <= i <= |s| && tot * Product(s[i..]) == Product(s)
    {
      ProductStep(s, i);
      MulAssoc(tot, s[i], Product(s[i + 1..]));
      tot := tot * s[i];
      i := i + 1;
    }
    assert s[|s|..] == [];
  }

  /** Adding the view bit keeps the continuity bit. */
  lemma BitSetView(f: bv32)
    ensures (f | VIEW_FLAG) & CONTINUOUS_FLAG == f & CONTINUOUS_FLAG
    ensures (f | VIEW_FLAG) & VIEW_FLAG != 0
  {
  }

  /** Toggling the continuity bit flips it and keeps every other bit. */
  lemma BitToggle(f: bv32)
    ensures (f ^ CONTINUOUS_FLAG) & CONTINUOUS_FLAG != 0 <==> f & CONTINUOUS_FLAG == 0
    ensures (f ^ CONTINUOUS_FLAG) & VIEW_FLAG == f & VIEW_FLAG
  {
  }

  /**
   * The throwing constructors that take extents (and an initial value):
   * a default-constructed matrix on which create(sizes, init) succeeded.
   */
  method NewMatrix<T(0)>(dim: nat, shape: seq<nat>, init: T) returns (r: Result<Matrix<T>>)
    requires dim >= 1
    ensures r.Failure? <==> |shape| != dim || !Positive(shape)
    ensures r.Failure? ==> r.error == InvalidArgument
    ensures r.Success? ==> fresh(r.value) && r.value.Valid() && r.value.dim == dim && r.value.buf != null
    ensures r.Success? ==> r.value.sizes == shape && r.value.steps == RowMajorSteps(shape)
    ensures r.Success? ==> fresh(r.value.buf) && r.value.IsContinuous() && r.value.start == 0
    ensures r.Success? ==> r.value.Elements() == seq(Product(shape), _ => init)
  {
    var m := new Matrix<T>(dim);
    var o := m.CreateSizes(shape, init);
    if o.Fail? {
      return Failure(o.error);
    }
    return Success(m);
  }
}
