// The free helpers the matrix implementation is built from: deriving
// row-major strides from extents, copying through an iterator, writing a
// nested initializer into fresh storage, and cutting the extents and start
// offset of a view out of a parent layout.

module MatInternal {
  import opened Errors
  import opened Shape
  import opened Iter
  import opened Utils

  /**
   * set_size_and_step: the extents are copied from src, the last stride is
   * 1 and every other stride is the next stride times the next extent, so
   * the first stride times the first extent is the element count.
   */
  method SetSizeAndStep(src: seq<nat>) returns (sizes: seq<nat>, steps: seq<nat>)
    requires |src| >= 1
    ensures sizes == src && steps == RowMajorSteps(src)
    ensures IsContiguous(sizes, steps) && steps[|steps| - 1] == 1
    ensures steps[0] * sizes[0] == Product(sizes)
  {
    var n := |src|;
    sizes := [];
    var i := 0;
    while i < n
      invariant 0 <= i <= n && sizes == src[..i]
    {
      sizes := sizes + [src[i]];
      i := i + 1;
    }
    assert src[..n] == src;
    steps := seq(n, _ => 0);
    steps := steps[n - 1 := 1];
    assert sizes[n..] == [];
    i := n - 1;
    while i > 0
      invariant 0 <= i < n && |steps| == n && sizes == src
      invariant forall j :: i <= j < n ==> steps[j] == Product(sizes[j + 1..])
    {
      ProductStep(sizes, i);
      steps := steps[i - 1 := steps[i] * sizes[i]];
      i := i - 1;
    }
    forall j | 0 <= j < n ensures steps[j] == RowMajorSteps(sizes)[j] {
      RowMajorStepsAt(sizes, j);
    }
    ContiguousIffRowMajor(sizes, steps);
    ProductStep(sizes, 0);
    assert sizes[0..] == sizes;
  }

  /**
   * copy_construct_uninit: size elements read through the iterator, one
   * after the other, are placed at dst[d..d + size); the iterator ends size
   * positions further on.
   */
  method CopyConstructUninit<T>(dst: array<T>, d: nat, src: MatIterator<T>, size: nat)
    requires src.Valid() && src.buf != null && src.buf != dst && d + size <= dst.Length
    requires 0 <= src.Pos() && src.Pos() + size <= Product(src.sizes)
    modifies dst, src
    ensures src.Valid() && src.buf == old(src.buf) && src.sizes == old(src.sizes)
    ensures src.steps == old(src.steps) && src.base == old(src.base)
    ensures src.Pos() == old(src.Pos()) + size
    ensures forall p :: old(src.Pos()) <= p < old(src.Pos()) + size ==>
              dst[d + (p - old(src.Pos()))] == ElementAt(src.buf, src.base, src.sizes, src.steps, p)
    ensures dst[..d] == old(dst[..d]) && dst[d + size..] == old(dst[d + size..])
  {
    ghost var p0 := src.Pos();
    var i := 0;
    while i < size
      invariant 0 <= i <= size
      invariant src.Valid() && src.buf == old(src.buf) && src.sizes == old(src.sizes)
      invariant src.steps == old(src.steps) && src.base == old(src.base)
      invariant src.Pos() == p0 + i
      invariant forall p :: p0 <= p < p0 + i ==>
                  dst[d + (p - p0)] == ElementAt(src.buf, src.base, src.sizes, src.steps, p)
      invariant dst[..d] == old(dst[..d]) && dst[d + size..] == old(dst[d + size..])
    {
      var v := src.Deref();
      dst[d + i] := v.value;
      var _ := src.PreIncrement();
      i := i + 1;
    }
  }

  /**
   * copy_construct_uninit with a pointer into an initializer list as the
   * source: dst[d..d + size) receives the first size values of the list.
   */
  method CopyConstructFromList<T>(dst: array<T>, d: nat, src: seq<T>, size: nat)
    requires d + size <= dst.Length && size <= |src|
    modifies dst
    ensures dst[..] == old(dst[..d]) + src[..size] + old(dst[d + size..])
  {
    var i := 0;
    while i < size
      invariant 0 <= i <= size
      invariant forall j :: 0 <= j < dst.Length ==> dst[j] == if d <= j < d + i then src[j - d] else old(dst[j])
    {
      dst[d + i] := src[i];
      i := i + 1;
    }
    Spliced(old(dst[..]), dst[..], d, src[..size]);
  }

  /** A buffer that agrees with before except for xs written at d, as a concatenation. */
  lemma Spliced<T>(before: seq<T>, after: seq<T>, d: nat, xs: seq<T>)
    requires |before| == |after| && d + |xs| <= |before|
    requires forall j :: 0 <= j < |after| ==> after[j] == if d <= j < d + |xs| then xs[j - d] else before[j]
    ensures after == before[..d] + xs + before[d + |xs|..]
  {
    var r := before[..d] + xs + before[d + |xs|..];
    forall j | 0 <= j < |after| ensures after[j] == r[j] {
      if j < d {
      } else if j < d + |xs| {
        assert r[j] == xs[j - d];
      } else {
        assert r[j] == before[j];
      }
    }
  }

  // ---------------------------------------------------------------------
  // Views: set_view_config

  /** A bound of a slice after normalisation: a negative bound counts from the end of the axis. */
  function Normalised(b: int, n: nat): int
  {
    if b < 0 then b + n else b
  }

  /** The exception a slice of an axis of extent n throws, in the order the checks run. */
  function RangeError(rg: Range, n: nat): Option<Error>
  {
    var l, r := Normalised(rg.l, n), Normalised(rg.r, n);
    if l > r then Some(InvalidArgument)
    else if l < 0 then Some(OutOfRange)
    else if r >= n then Some(OutOfRange)
    else None
  }

  /**
   * The configuration of a view from range i on: ranges i.. are applied to
   * the extents nsiz and the start offset st, or the first bad range's
   * exception is thrown.
   */
  function ViewFrom(rngs: seq<Range>, sizes: seq<nat>, steps: seq<nat>, i: nat, nsiz: seq<nat>, st: int)
    : Result<(seq<nat>, int)>
    requires |rngs| <= |sizes| == |steps| == |nsiz| && i <= |rngs|
    decreases |rngs| - i
  {
    if i == |rngs| then Success((nsiz, st))
    else
      var l, r := Normalised(rngs[i].l, sizes[i]), Normalised(rngs[i].r, sizes[i]);
      if RangeError(rngs[i], sizes[i]).Some? then Failure(RangeError(rngs[i], sizes[i]).value)
      else ViewFrom(rngs, sizes, steps, i + 1, nsiz[i := r - l + 1], st + l * steps[i])
  }

  /** The configuration of a view of the layout (sizes, steps) whose first element is at st. */
  function ViewConfig(rngs: seq<Range>, sizes: seq<nat>, steps: seq<nat>, st: int): Result<(seq<nat>, int)>
    requires |rngs| <= |sizes| == |steps|
  {
    ViewFrom(rngs, sizes, steps, 0, sizes, st)
  }

  /**
   * set_view_config: for every supplied range, normalise both bounds, check
   * them, narrow the extent to r - l + 1 and move the start offset by l
   * strides.
   */
  method SetViewConfig(rngs: seq<Range>, sizes: seq<nat>, steps: seq<nat>, st0: int)
    returns (r: Result<(seq<nat>, int)>)
    requires |rngs| <= |sizes| == |steps|
    ensures r == ViewConfig(rngs, sizes, steps, st0)
  {
    var nsiz: seq<nat> := sizes;
    var st := st0;
    var i := 0;
    while i < |rngs|
      invariant 0 <= i <= |rngs| && |nsiz| == |sizes|
      invariant ViewConfig(rngs, sizes, steps, st0) == ViewFrom(rngs, sizes, steps, i, nsiz, st)
    {
      var l, rb := rngs[i].l, rngs[i].r;
      if l < 0 {
        l := l + sizes[i];
      }
      if rb < 0 {
        rb := rb + sizes[i];
      }
      if l > rb {
        return Failure(InvalidArgument);
      }
      if l < 0 {
        return Failure(OutOfRange);
      }
      if rb >= sizes[i] {
        return Failure(OutOfRange);
      }
      nsiz := nsiz[i := rb - l + 1];
      st := st + l * steps[i];
      i := i + 1;
    }
    return Success((nsiz, st));
  }

  /** The first coordinate of the view inside its parent, axis by axis (0 on axes without a range). */
  function LowerCorner(rngs: seq<Range>, sizes: seq<nat>): (lo: seq<int>)
    requires |rngs| <= |sizes|
    ensures |lo| == |sizes|
  {
    seq(|sizes|, i requires 0 <= i < |sizes| => if i < |rngs| then Normalised(rngs[i].l, sizes[i]) else 0)
  }

  /** The extent of the slice rg of an axis of extent n (0 for an empty or reversed slice). */
  function Extent(rg: Range, n: nat): nat
  {
    var l, r := Normalised(rg.l, n), Normalised(rg.r, n);
    if l <= r then r - l + 1 else 0
  }

  /** The extents of the view, axis by axis. */
  function ViewSizes(rngs: seq<Range>, sizes: seq<nat>): (s: seq<nat>)
    requires |rngs| <= |sizes|
    ensures |s| == |sizes|
  {
    seq(|sizes|, i requires 0 <= i < |sizes| => if i < |rngs| then Extent(rngs[i], sizes[i]) else sizes[i])
  }

  /**
   * The default slice {0, -1} is accepted on every non-empty axis and selects all of it from 0;
   * on an empty axis it is reversed and throws invalid_argument.
   */
  lemma FullRangeIsWholeAxis(n: nat)
    ensures RangeError(FullRange(), n) == if n >= 1 then None else Some(InvalidArgument)
    ensures n >= 1 ==> Normalised(FullRange().l, n) == 0 && Extent(FullRange(), n) == n
  {
  }

  /**
   * What set_view_config computes: it succeeds exactly when no range is
   * bad, and otherwise throws what the first bad range throws; on success
   * every supplied axis is narrowed to its slice, every other axis is kept,
   * and the start moves to the lower corner of the slice.
   */
  lemma ViewConfigMeaning(rngs: seq<Range>, sizes: seq<nat>, steps: seq<nat>, st: int)
    requires |rngs| <= |sizes| == |steps|
    ensures ViewConfig(rngs, sizes, steps, st).Success? <==>
              forall i :: 0 <= i < |rngs| ==> RangeError(rngs[i], sizes[i]).None?
    ensures ViewConfig(rngs, sizes, steps, st).Failure? ==>
              exists i :: 0 <= i < |rngs| && RangeError(rngs[i], sizes[i]).Some? &&
                (forall j :: 0 <= j < i ==> RangeError(rngs[j], sizes[j]).None?) &&
                ViewConfig(rngs, sizes, steps, st).error == RangeError(rngs[i], sizes[i]).value
    ensures ViewConfig(rngs, sizes, steps, st).Success? ==>
              ViewConfig(rngs, sizes, steps, st).value.0 == ViewSizes(rngs, sizes) &&
              ViewConfig(rngs, sizes, steps, st).value.1 == st + Dot(LowerCorner(rngs, sizes), steps)
  {
    ViewFromChecks(rngs, sizes, steps, 0, sizes, st);
    if ViewConfig(rngs, sizes, steps, st).Success? {
      ViewFromValue(rngs, sizes, steps, 0, sizes, st);
    }
    assert Suffix(LowerCorner(rngs, sizes), 0) == LowerCorner(rngs, sizes);
  }

  /** Which range, from i on, makes the configuration fail, and with which error. */
  lemma {:induction false} ViewFromChecks(rngs: seq<Range>, sizes: seq<nat>, steps: seq<nat>, i: nat,
                                          nsiz: seq<nat>, st: int)
    requires |rngs| <= |sizes| == |steps| == |nsiz| && i <= |rngs|
    ensures ViewFrom(rngs, sizes, steps, i, nsiz, st).Success? <==>
              forall j :: i <= j < |rngs| ==> RangeError(rngs[j], sizes[j]).None?
    ensures ViewFrom(rngs, sizes, steps, i, nsiz, st).Failure? ==>
              exists k :: i <= k < |rngs| && RangeError(rngs[k], sizes[k]).Some? &&
                (forall j :: i <= j < k ==> RangeError(rngs[j], sizes[j]).None?) &&
                ViewFrom(rngs, sizes, steps, i, nsiz, st).error == RangeError(rngs[k], sizes[k]).value
    decreases |rngs| - i
  {
    if i < |rngs| && RangeError(rngs[i], sizes[i]).None? {
      var l, r := Normalised(rngs[i].l, sizes[i]), Normalised(rngs[i].r, sizes[i]);
      ViewFromChecks(rngs, sizes, steps, i + 1, nsiz[i := r - l + 1], st + l * steps[i]);
    }
  }

  /** The extents and start a successful configuration reaches from range i on, given the corner so far. */
  lemma {:induction false} ViewFromValue(rngs: seq<Range>, sizes: seq<nat>, steps: seq<nat>, i: nat,
                                         nsiz: seq<nat>, st: int)
    requires |rngs| <= |sizes| == |steps| == |nsiz| && i <= |rngs|
    requires forall j :: i <= j < |sizes| ==> nsiz[j] == sizes[j]
    requires forall j :: 0 <= j < i ==> nsiz[j] == ViewSizes(rngs, sizes)[j]
    requires ViewFrom(rngs, sizes, steps, i, nsiz, st).Success?
    ensures ViewFrom(rngs, sizes, steps, i, nsiz, st).value.0 == ViewSizes(rngs, sizes)
    ensures ViewFrom(rngs, sizes, steps, i, nsiz, st).value.1 ==
              st + Dot(Suffix(LowerCorner(rngs, sizes), i), steps)
    decreases |rngs| - i
  {
    var lo := LowerCorner(rngs, sizes);
    if i == |rngs| {
      ZerosAreOrigin(Suffix(lo, i), sizes, steps);
    } else {
      var l, r := Normalised(rngs[i].l, sizes[i]), Normalised(rngs[i].r, sizes[i]);
      ViewFromValue(rngs, sizes, steps, i + 1, nsiz[i := r - l + 1], st + l * steps[i]);
      SuffixStep(lo, steps, i);
    }
  }

  /** Clearing one more coordinate of the corner removes its term from the offset. */
  lemma SuffixStep(lo: seq<int>, steps: seq<nat>, i: nat)
    requires |lo| == |steps| && i < |lo|
    ensures Dot(Suffix(lo, i), steps) == Dot(Suffix(lo, i + 1), steps) + lo[i] * steps[i]
  {
    DotUpdate(Suffix(lo, i + 1), steps, i, lo[i]);
    assert Suffix(lo, i + 1)[i := lo[i]] == Suffix(lo, i);
  }

  /** The corner lo with its first i coordinates replaced by zero. */
  function Suffix(lo: seq<int>, i: nat): (z: seq<int>)
    ensures |z| == |lo|
  {
    seq(|lo|, j requires 0 <= j < |lo| => if j < i then 0 else lo[j])
  }

  /**
   * A view cut out of a nested layout that fits a buffer is itself a
   * nested layout fitting the same buffer, with the same strides.
   */
  lemma ViewLayout(rngs: seq<Range>, sizes: seq<nat>, steps: seq<nat>, st: int, length: int)
    requires |rngs| <= |sizes| && Layout(sizes, steps, st, length)
    requires forall i :: 0 <= i < |rngs| ==> RangeError(rngs[i], sizes[i]).None?
    ensures forall i :: 0 <= i < |sizes| ==> ViewSizes(rngs, sizes)[i] >= 1
    ensures Layout(ViewSizes(rngs, sizes), steps, st + Dot(LowerCorner(rngs, sizes), steps), length)
  {
    var lo, vs := LowerCorner(rngs, sizes), ViewSizes(rngs, sizes);
    assert forall i :: 0 <= i < |sizes| ==> 0 <= lo[i] && 1 <= vs[i] && lo[i] + vs[i] <= sizes[i];
    var ns := vs;
    assert Nested(ns, steps) by {
      forall i | 0 < i < |steps| ensures StepCovers(ns, steps, i) {
        assert StepCovers(sizes, steps, i);
        MulLe(ns[i], sizes[i], steps[i]);
      }
    }
    StepsPositive(sizes, steps);
    DotNonNegative(lo, steps);
    CornerPlusExtent(lo, ns, sizes, steps);
  }

  lemma {:induction false} DotNonNegative(lo: seq<int>, steps: seq<nat>)
    requires |lo| == |steps| && forall i :: 0 <= i < |lo| ==> lo[i] >= 0
    ensures Dot(lo, steps) >= 0
  {
    if |lo| > 0 {
      DotNonNegative(lo[1..], steps[1..]);
    }
  }

  /** The far corner of a sub-block lies no further than the far corner of the block. */
  lemma {:induction false} CornerPlusExtent(lo: seq<int>, ns: seq<nat>, sizes: seq<nat>, steps: seq<nat>)
    requires |lo| == |ns| == |sizes| == |steps|
    requires forall i :: 0 <= i < |lo| ==> 0 <= lo[i] && 1 <= ns[i] && lo[i] + ns[i] <= sizes[i]
    ensures Dot(lo, steps) + MaxOffset(ns, steps) <= MaxOffset(sizes, steps)
  {
    if |lo| > 0 {
      CornerPlusExtent(lo[1..], ns[1..], sizes[1..], steps[1..]);
      MulLe(lo[0] + ns[0] - 1, sizes[0] - 1, steps[0]);
    }
  }

  /**
   * Cell j of a view is cell lo + j of its parent: same strides, start at
   * the lower corner, and the shifted index is in the parent's range.
   */
  lemma ViewCell(rngs: seq<Range>, sizes: seq<nat>, steps: seq<nat>, st: int, j: seq<int>)
    requires |rngs| <= |sizes| == |steps|
    requires forall i :: 0 <= i < |rngs| ==> RangeError(rngs[i], sizes[i]).None?
    requires |j| == |sizes| && forall i :: 0 <= i < |j| ==> 0 <= j[i] < ViewSizes(rngs, sizes)[i]
    ensures InRange(Shifted(j, LowerCorner(rngs, sizes)), sizes)
    ensures st + Dot(LowerCorner(rngs, sizes), steps) + Dot(j, steps)
         == st + Dot(Shifted(j, LowerCorner(rngs, sizes)), steps)
  {
    DotAdd(j, LowerCorner(rngs, sizes), steps);
  }

  /** The pointwise sum of two multi-indices. */
  function Shifted(j: seq<int>, lo: seq<int>): (s: seq<int>)
    requires |j| == |lo|
    ensures |s| == |j| && forall i :: 0 <= i < |j| ==> s[i] == j[i] + lo[i]
  {
    seq(|j|, i requires 0 <= i < |j| => j[i] + lo[i])
  }

  lemma {:induction false} DotAdd(a: seq<int>, b: seq<int>, steps: seq<nat>)
    requires |a| == |b| == |steps|
    ensures Dot(Shifted(a, b), steps) == Dot(a, steps) + Dot(b, steps)
  {
    if |a| > 0 {
      assert Shifted(a, b)[1..] == Shifted(a[1..], b[1..]);
      DotAdd(a[1..], b[1..], steps[1..]);
    }
  }

  // ---------------------------------------------------------------------
  // Nested initializers: fill_init_value

  /** v fits a block of these extents: one extent per level, and no list is longer than its extent. */
  predicate Fits<T>(v: InitVal<T>, shape: seq<nat>)
    decreases v
  {
    match v
    case Leaf(xs) => |shape| == 1 && |xs| <= shape[0]
    case Node(cs) => |shape| >= 2 && |cs| <= shape[0] && forall i :: 0 <= i < |cs| ==> Fits(cs[i], shape[1..])
  }

  /** The value v gives at multi-index p, if it gives one. */
  function Lookup<T>(v: InitVal<T>, p: seq<int>): Option<T>
    decreases v
  {
    if |p| == 0 then None
    else
      match v
      case Leaf(xs) => if |p| == 1 && 0 <= p[0] < |xs| then Some(xs[p[0]]) else None
      case Node(cs) => if 0 <= p[0] < |cs| then Lookup(cs[p[0]], p[1..]) else None
  }

  /**
   * The row-major contents of a block of extents shape after the values of
   * v have been written over base: a leaf replaces the first elements, and
   * a node replaces row i by the overlay of its child i, while rows without
   * a child keep base.
   */
  ghost function Overlay<T>(v: InitVal<T>, shape: seq<nat>, base: seq<T>): (r: seq<T>)
    requires Fits(v, shape) && Positive(shape) && |base| == Product(shape)
    ensures |r| == |base|
    decreases v, 1, 0
  {
    match v
    case Leaf(xs) =>
      assert shape[1..] == [];
      xs + base[|xs|..]
    case Node(cs) =>
      PositiveTail(shape);
      MulLe(|cs|, shape[0], Product(shape[1..]));
      Rows(v, shape, base, |cs|) + base[|cs| * Product(shape[1..])..]
  }

  /** The overlays of the first i children of node v, each on its own row of base. */
  ghost function Rows<T>(v: InitVal<T>, shape: seq<nat>, base: seq<T>, i: nat): (r: seq<T>)
    requires v.Node? && Fits(v, shape) && Positive(shape) && |base| == Product(shape) && i <= |v.ch|
    ensures Product(shape[1..]) > 0 && |r| == i * Product(shape[1..]) <= |base|
    decreases v, 0, i
  {
    PositiveTail(shape);
    var w := Product(shape[1..]);
    MulLe(i, shape[0], w);
    if i == 0 then []
    else
      MulSucc(i - 1, w);
      Rows(v, shape, base, i - 1) + Overlay(v.ch[i - 1], shape[1..], base[(i - 1) * w..i * w])
  }

  /** Row j < i of Rows(v, .., i) is the overlay of child j. */
  lemma {:induction false} RowsAt<T>(v: InitVal<T>, shape: seq<nat>, base: seq<T>, i: nat, j: nat, k: nat)
    requires v.Node? && Fits(v, shape) && Positive(shape) && |base| == Product(shape) && i <= |v.ch|
    requires j < i && k < Product(shape[1..])
    ensures j * Product(shape[1..]) + Product(shape[1..]) <= |base|
    ensures j * Product(shape[1..]) + k < |Rows(v, shape, base, i)|
    ensures Rows(v, shape, base, i)[j * Product(shape[1..]) + k]
         == Overlay(v.ch[j], shape[1..], base[j * Product(shape[1..])..j * Product(shape[1..]) + Product(shape[1..])])[k]
    decreases i
  {
    var w := Product(shape[1..]);
    var r := Rows(v, shape, base, i);
    MulLe(j + 1, i, w);
    MulSucc(j, w);
    if j < i - 1 {
      RowsAt(v, shape, base, i - 1, j, k);
      MulLe(j + 1, i - 1, w);
    } else {
      assert r == Rows(v, shape, base, i - 1) + Overlay(v.ch[i - 1], shape[1..], base[(i - 1) * w..i * w]);
    }
  }

  /**
   * What the overlay holds at multi-index p: the value v gives there, or
   * the base element when v gives none.
   */
  lemma {:induction false} OverlayAt<T>(v: InitVal<T>, shape: seq<nat>, base: seq<T>, p: seq<int>)
    requires Fits(v, shape) && Positive(shape) && |base| == Product(shape) && InRange(p, shape)
    ensures 0 <= Lin(p, shape) < |base|
    ensures Overlay(v, shape, base)[Lin(p, shape)]
         == (if Lookup(v, p).Some? then Lookup(v, p).value else base[Lin(p, shape)])
    decreases v, 2
  {
    LinOffset(p, shape, RowMajorSteps(shape));
    match v
    case Leaf(xs) =>
      assert shape[1..] == [] && p[1..] == [];
      assert Lin(p, shape) == p[0];
    case Node(cs) =>
      OverlayAtNode(v, shape, base, p);
  }

  /** OverlayAt for a node: a child's row for a leading index below the child count, the base beyond it. */
  lemma {:induction false} OverlayAtNode<T>(v: InitVal<T>, shape: seq<nat>, base: seq<T>, p: seq<int>)
    requires v.Node? && Fits(v, shape) && Positive(shape) && |base| == Product(shape) && InRange(p, shape)
    ensures 0 <= Lin(p, shape) < |base|
    ensures Overlay(v, shape, base)[Lin(p, shape)]
         == (if Lookup(v, p).Some? then Lookup(v, p).value else base[Lin(p, shape)])
    decreases v, 1
  {
    LinOffset(p, shape, RowMajorSteps(shape));
    PositiveTail(shape);
    var w := Product(shape[1..]);
    var t, r := p[1..], shape[1..];
    assert InRange(t, r) by {
      forall i | 0 <= i < |r| ensures 0 <= t[i] < r[i] { assert t[i] == p[i + 1] && r[i] == shape[i + 1]; }
    }
    LinOffset(t, r, RowMajorSteps(r));
    assert Lin(p, shape) == p[0] * w + Lin(t, r);
    if p[0] < |v.ch| {
      OverlayInRow(v, shape, base, p[0], t, w);
    } else {
      OverlayPastRows(v, shape, base, p[0], Lin(t, r), w);
    }
  }

  /** Below the child count, the overlay of a node at (q, t) is the overlay of child q at t. */
  lemma {:induction false} OverlayInRow<T>(v: InitVal<T>, shape: seq<nat>, base: seq<T>, q: nat, t: seq<int>, w: nat)
    requires v.Node? && Fits(v, shape) && Positive(shape) && |base| == Product(shape) && q < |v.ch|
    requires InRange(t, shape[1..]) && w == Product(shape[1..])
    ensures 0 <= Lin(t, shape[1..]) < w && q * w + w <= |base|
    ensures Overlay(v, shape, base)[q * w + Lin(t, shape[1..])]
         == (if Lookup(v.ch[q], t).Some? then Lookup(v.ch[q], t).value else base[q * w + Lin(t, shape[1..])])
    decreases v, 0
  {
    PositiveTail(shape);
    var r := shape[1..];
    LinOffset(t, r, RowMajorSteps(r));
    var l := Lin(t, r);
    MulLe(0, q, w);
    MulLe(q + 1, |v.ch|, w);
    MulSucc(q, w);
    var lo := |v.ch| * w;
    OverlayNode(v, shape, base, lo);
    RowsAt(v, shape, base, |v.ch|, q, l);
    var row := base[q * w..q * w + w];
    OverlayAt(v.ch[q], r, row, t);
    assert row[l] == base[q * w + l];
  }

  /** At or beyond the child count, the overlay of a node keeps the base. */
  lemma OverlayPastRows<T>(v: InitVal<T>, shape: seq<nat>, base: seq<T>, q: nat, l: nat, w: nat)
    requires v.Node? && Fits(v, shape) && Positive(shape) && |base| == Product(shape)
    requires |v.ch| <= q < shape[0] && w == Product(shape[1..]) && l < w
    ensures q * w + l < |base| && Overlay(v, shape, base)[q * w + l] == base[q * w + l]
  {
    PositiveTail(shape);
    MulLe(0, |v.ch|, w);
    var lo := |v.ch| * w;
    OverlayNode(v, shape, base, lo);
    MulLe(|v.ch|, q, w);
    MulLe(q + 1, shape[0], w);
    MulSucc(q, w);
    assert Overlay(v, shape, base)[q * w + l] == base[lo..][q * w + l - lo];
  }

  /** Fits only needs large enough extents. */
  lemma {:induction false} FitsWider<T>(v: InitVal<T>, s: seq<nat>, s': seq<nat>)
    requires Fits(v, s) && |s'| == |s| && forall j :: 0 <= j < |s| ==> s[j] <= s'[j]
    ensures Fits(v, s')
    decreases v
  {
    match v
    case Leaf(_) =>
    case Node(cs) =>
      forall i | 0 <= i < |cs| ensures Fits(cs[i], s'[1..]) {
        FitsWider(cs[i], s[1..], s'[1..]);
      }
  }

  /** The extents of the widths of v, one per level. */
  function WidthShape<T>(v: InitVal<T>, n: nat): (s: seq<nat>)
    ensures |s| == n && forall j :: 0 <= j < n ==> s[j] == Width(v, j)
  {
    seq(n, j requires 0 <= j < n => Width(v, j))
  }

  /** A nested initializer of depth n fits the block whose extents are its widths. */
  lemma {:induction false} FitsWidths<T>(v: InitVal<T>, n: nat)
    requires HasDepth(v, n)
    ensures Fits(v, WidthShape(v, n))
    decreases v
  {
    match v
    case Leaf(_) =>
    case Node(cs) =>
      var s := WidthShape(v, n);
      forall i | 0 <= i < |cs| ensures Fits(cs[i], s[1..]) {
        FitsWidths(cs[i], n - 1);
        forall j | 0 <= j < n - 1 ensures WidthShape(cs[i], n - 1)[j] <= s[1..][j] {
          WidthIsLargestChild(cs, j);
        }
        FitsWider(cs[i], WidthShape(cs[i], n - 1), s[1..]);
      }
  }

  /**
   * fill_init_value: writes the values of v into the block of extents shape
   * at buf[dst..], whose strides are strides; a leaf is written element by
   * element, a node row by row. Nothing outside the block changes.
   */
  method FillInitValue<T>(buf: array<T>, dst: nat, strides: seq<nat>, v: InitVal<T>, ghost shape: seq<nat>)
    requires Fits(v, shape) && Positive(shape) && strides == RowMajorSteps(shape)
    requires dst + Product(shape) <= buf.Length
    modifies buf
    ensures buf[..] == old(buf[..dst]) + Overlay(v, shape, old(buf[dst..dst + Product(shape)]))
                       + old(buf[dst + Product(shape)..])
    decreases v, 1
  {
    match v
    case Leaf(ch) =>
      assert shape[1..] == [];
      var i := 0;
      while i < |ch|
        invariant 0 <= i <= |ch|
        invariant forall j :: 0 <= j < buf.Length ==> buf[j] == if dst <= j < dst + i then ch[j - dst] else old(buf[j])
      {
        buf[dst + i] := ch[i];
        i := i + 1;
      }
      LeafFilled(old(buf[..]), buf[..], dst, ch, Product(shape));
    case Node(_) =>
      FillRows(buf, dst, strides, v, shape);
  }

  /** The buffer after a leaf has been written at dst, as a concatenation. */
  lemma LeafFilled<T>(before: seq<T>, after: seq<T>, dst: nat, ch: seq<T>, n: nat)
    requires |before| == |after| && |ch| <= n && dst + n <= |before|
    requires forall j :: 0 <= j < |after| ==> after[j] == if dst <= j < dst + |ch| then ch[j - dst] else before[j]
    ensures after == before[..dst] + (ch + before[dst..dst + n][|ch|..]) + before[dst + n..]
  {
  }

  /**
   * The row loop of fill_init_value, which also fills the first level of a
   * matrix created from a nested initializer: child i is written at dst
   * plus i outer strides, each into the block of the remaining extents.
   */
  method FillRows<T>(buf: array<T>, dst: nat, strides: seq<nat>, v: InitVal<T>, ghost shape: seq<nat>)
    requires v.Node? && Fits(v, shape) && Positive(shape) && strides == RowMajorSteps(shape)
    requires dst + Product(shape) <= buf.Length
    modifies buf
    ensures buf[..] == old(buf[..dst]) + Overlay(v, shape, old(buf[dst..dst + Product(shape)]))
                       + old(buf[dst + Product(shape)..])
    decreases v, 0, 1
  {
    PositiveTail(shape);
    var cs := v.ch;
    var step := strides[0];
    ghost var w := Product(shape[1..]);
    ghost var n := Product(shape);
    ghost var b := old(buf[dst..dst + n]);
    ghost var x, y := old(buf[..dst]), old(buf[dst + n..]);
    assert step == w;
    RowsStart(buf[..], dst, v, shape);
    var i := 0;
    var at := dst;
    ghost var lo := 0;
    while i < |cs|
      invariant 0 <= i <= |cs| && lo == i * w && at == dst + lo
      invariant RowsWritten(buf[..], x, y, v, shape, b, i, lo)
    {
      FillRow(buf, dst, at, strides, v, shape, i, lo, b, x, y);
      i := i + 1;
      lo := lo + w;
      at := at + step;
    }
    NodeFilled(x, y, v, shape, b, lo);
  }

  /** The buffer s holds x, the first i rows of the node written over b, the rest of b from lo, and y. */
  ghost predicate RowsWritten<T>(s: seq<T>, x: seq<T>, y: seq<T>, v: InitVal<T>, shape: seq<nat>, b: seq<T>,
                                 i: nat, lo: nat)
  {
    v.Node? && Fits(v, shape) && Positive(shape) && |b| == Product(shape) && i <= |v.ch| && lo <= |b| &&
    s == x + Rows(v, shape, b, i) + b[lo..] + y
  }

  /** Before the first row is written, the buffer is its prefix, no rows, the whole old block and its suffix. */
  lemma RowsStart<T>(s: seq<T>, dst: nat, v: InitVal<T>, shape: seq<nat>)
    requires v.Node? && Fits(v, shape) && Positive(shape) && dst + Product(shape) <= |s|
    ensures RowsWritten(s, s[..dst], s[dst + Product(shape)..], v, shape, s[dst..dst + Product(shape)], 0, 0)
  {
    var n := Product(shape);
    assert Rows(v, shape, s[dst..dst + n], 0) == [];
    assert s == s[..dst] + s[dst..dst + n] + s[dst + n..];
  }

  /** The buffer once every row of a node is written: its block holds the overlay of the node. */
  lemma NodeFilled<T>(x: seq<T>, y: seq<T>, v: InitVal<T>, shape: seq<nat>, b: seq<T>, lo: nat)
    requires v.Node? && Fits(v, shape) && Positive(shape) && |b| == Product(shape)
    requires lo == |v.ch| * Product(shape[1..])
    ensures lo <= |b| && x + Rows(v, shape, b, |v.ch|) + b[lo..] + y == x + Overlay(v, shape, b) + y
  {
    OverlayNode(v, shape, b, lo);
  }

  /** One turn of the row loop: child i is written at the start of row i, which is at + lo. */
  method FillRow<T>(buf: array<T>, dst: nat, at: nat, strides: seq<nat>, v: InitVal<T>, ghost shape: seq<nat>,
                    i: nat, ghost lo: nat, ghost b: seq<T>, ghost x: seq<T>, ghost y: seq<T>)
    requires v.Node? && Fits(v, shape) && Positive(shape) && strides == RowMajorSteps(shape)
    requires dst + Product(shape) <= buf.Length && i < |v.ch| && |b| == Product(shape) && |x| == dst
    requires lo == i * Product(shape[1..]) && at == dst + lo
    requires RowsWritten(buf[..], x, y, v, shape, b, i, lo)
    modifies buf
    ensures lo + Product(shape[1..]) == (i + 1) * Product(shape[1..])
    ensures RowsWritten(buf[..], x, y, v, shape, b, i + 1, lo + Product(shape[1..]))
    decreases v, 0, 0
  {
    PositiveTail(shape);
    ghost var before := buf[..];
    RowPlace(shape, i, |v.ch|, dst, buf.Length);
    assert Fits(v.ch[i], shape[1..]);
    ghost var w := Product(shape[1..]);
    FillRowsStep(before, x, y, v, shape, b, i, w, lo, at);
    FillInitValue(buf, at, strides[1..], v.ch[i], shape[1..]);
    assert buf[..] == before[..at] + Overlay(v.ch[i], shape[1..], before[at..at + w]) + before[at + w..];
  }

  /** The overlay of a node is the overlay of its rows followed by the rest of base; lo is |v.ch| * w. */
  lemma OverlayNode<T>(v: InitVal<T>, shape: seq<nat>, base: seq<T>, lo: nat)
    requires v.Node? && Fits(v, shape) && Positive(shape) && |base| == Product(shape)
    requires lo == |v.ch| * Product(shape[1..])
    ensures lo <= |base| && Overlay(v, shape, base) == Rows(v, shape, base, |v.ch|) + base[lo..]
  {
    PositiveTail(shape);
    MulLe(|v.ch|, shape[0], Product(shape[1..]));
  }

  /** Where row i of a row-major block lies, and the strides of one row. */
  lemma RowPlace(shape: seq<nat>, i: nat, rows: nat, dst: nat, length: nat)
    requires |shape| >= 2 && Positive(shape) && i < rows <= shape[0] && dst + Product(shape) <= length
    ensures RowMajorSteps(shape)[0] == Product(shape[1..])
    ensures RowMajorSteps(shape)[1..] == RowMajorSteps(shape[1..])
    ensures i * Product(shape[1..]) + Product(shape[1..]) == (i + 1) * Product(shape[1..]) <= Product(shape)
    ensures dst + i * Product(shape[1..]) + Product(shape[1..]) <= length
  {
    MulLe(i + 1, shape[0], Product(shape[1..]));
    MulSucc(i, Product(shape[1..]));
  }

  /** One child written at its row turns Rows(.., i) into Rows(.., i + 1); lo is i * w and row i starts at off. */
  lemma FillRowsStep<T>(before: seq<T>, x: seq<T>, y: seq<T>, v: InitVal<T>,
                        shape: seq<nat>, b: seq<T>, i: nat, w: nat, lo: nat, off: nat)
    requires v.Node? && Fits(v, shape) && Positive(shape) && Positive(shape[1..])
    requires |b| == Product(shape) && i < |v.ch| && Fits(v.ch[i], shape[1..]) && w == Product(shape[1..])
    requires lo == i * w && lo + w <= |b| && off == |x| + lo
    requires RowsWritten(before, x, y, v, shape, b, i, lo)
    ensures off + w <= |before|
    ensures RowsWritten(before[..off] + Overlay(v.ch[i], shape[1..], before[off..off + w]) + before[off + w..],
                        x, y, v, shape, b, i + 1, lo + w)
  {
    var done := Rows(v, shape, b, i);
    assert |done| == lo;
    RowRewritten(before, x, done, b, y, lo, w, off, Overlay(v.ch[i], shape[1..], b[lo..lo + w]));
    RowsSucc(v, shape, b, i, w, lo);
  }

  /** Rewriting row lo..lo + w of the block b, which sits at off in before, with o. */
  lemma RowRewritten<T>(before: seq<T>, x: seq<T>, done: seq<T>, b: seq<T>, y: seq<T>, lo: nat, w: nat, off: nat, o: seq<T>)
    requires |done| == lo && lo + w <= |b| && off == |x| + lo && |o| == w && before == x + done + b[lo..] + y
    ensures off + w <= |before| && before[off..off + w] == b[lo..lo + w]
    ensures before[..off] + o + before[off + w..] == x + (done + o) + b[lo + w..] + y
  {
    var rest := b[lo..];
    RowSplit(before, x, done, rest, y, w);
    assert rest[..w] == b[lo..lo + w] && rest[w..] == b[lo + w..];
    Reassemble(before, before[..off] + o + before[off + w..], x, done, rest, y, o, done + o, w, off);
  }

  /** Rows(.., i + 1) adds the overlay of child i on row i; lo is i * w. */
  lemma RowsSucc<T>(v: InitVal<T>, shape: seq<nat>, b: seq<T>, i: nat, w: nat, lo: nat)
    requires v.Node? && Fits(v, shape) && Positive(shape) && Positive(shape[1..])
    requires |b| == Product(shape) && i < |v.ch| && Fits(v.ch[i], shape[1..]) && w == Product(shape[1..])
    requires lo == i * w && lo + w <= |b|
    ensures Rows(v, shape, b, i + 1) == Rows(v, shape, b, i) + Overlay(v.ch[i], shape[1..], b[lo..lo + w])
  {
    MulSucc(i, w);
    var hi := (i + 1) * w;
    assert hi == lo + w;
    assert b[lo..hi] == b[lo..lo + w];
    var r := Rows(v, shape, b, i + 1);
    assert r == Rows(v, shape, b, i) + Overlay(v.ch[i], shape[1..], b[i * w..hi]);
  }

  /** The buffer around a row that has been rewritten. */
  lemma Reassemble<T>(before: seq<T>, after: seq<T>, x: seq<T>, done: seq<T>, rest: seq<T>, y: seq<T>,
                      o: seq<T>, next: seq<T>, w: nat, off: nat)
    requires before == x + done + rest + y && off == |x| + |done| && w <= |rest|
    requires after == before[..off] + o + before[off + w..] && next == done + o
    ensures after == x + next + rest[w..] + y
  {
    RowSplit(before, x, done, rest, y, w);
  }

  /** Cutting the buffer around the next row of a partly filled block. */
  lemma RowSplit<T>(all: seq<T>, x: seq<T>, done: seq<T>, rest: seq<T>, y: seq<T>, w: nat)
    requires all == x + done + rest + y && w <= |rest|
    ensures all[..|x| + |done|] == x + done
    ensures all[|x| + |done|..|x| + |done| + w] == rest[..w]
    ensures all[|x| + |done| + w..] == rest[w..] + y
  {
  }
}
