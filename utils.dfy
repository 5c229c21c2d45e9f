// Helpers of the matrix: the slice bound of a view, the nested initializer
// list of the create overloads, and the inference of the shape of a nested
// initializer list.

module Utils {

  /** A closed slice [l, r] of one axis; negative bounds count from the end. */
  datatype Range = Range(l: int, r: int)

  /** The default slice {0, -1}: once -1 is normalised it is the whole axis. */
  function FullRange(): Range
  {
    Range(0, -1)
  }

  /**
   * A nested initializer: a value of depth 1 holds the elements of one row,
   * a value of depth n > 1 holds initializers of depth n - 1.
   */
  datatype InitVal<T> = Leaf(vals: seq<T>) | Node(ch: seq<InitVal<T>>)

  /** Every branch of v reaches a leaf after exactly n levels. */
  predicate HasDepth<T>(v: InitVal<T>, n: nat)
    decreases v
  {
    match v
    case Leaf(_) => n == 1
    case Node(cs) => n >= 2 && forall i :: 0 <= i < |cs| ==> HasDepth(cs[i], n - 1)
  }

  /** The number of entries at the top level of v. */
  function Count<T>(v: InitVal<T>): nat
  {
    match v
    case Leaf(xs) => |xs|
    case Node(cs) => |cs|
  }

  function Max(a: nat, b: nat): nat
  {
    if a < b then b else a
  }

  /** The largest element of s, or 0 for the empty sequence. */
  function MaxOf(s: seq<nat>): nat
  {
    if |s| == 0 then 0 else Max(MaxOf(s[..|s| - 1]), s[|s| - 1])
  }

  /** MaxOf is an upper bound of s that is attained when s is not empty. */
  lemma {:induction false} MaxOfIsMaximum(s: seq<nat>)
    ensures forall i :: 0 <= i < |s| ==> s[i] <= MaxOf(s)
    ensures |s| > 0 ==> exists i :: 0 <= i < |s| && s[i] == MaxOf(s)
  {
    if |s| > 0 {
      var p := s[..|s| - 1];
      MaxOfIsMaximum(p);
      forall i | 0 <= i < |s| ensures s[i] <= MaxOf(s) {
        if i < |s| - 1 { assert s[i] == p[i]; }
      }
      if |p| > 0 && MaxOf(p) >= s[|s| - 1] {
        var j :| 0 <= j < |p| && p[j] == MaxOf(p);
        assert s[j] == MaxOf(s);
      } else {
        assert s[|s| - 1] == MaxOf(s);
      }
    }
  }

  /**
   * The width of v at depth k: the length of the longest list found k
   * levels below v (k = 0 is the top level), or 0 when there is none.
   */
  function Width<T>(v: InitVal<T>, k: nat): nat
    decreases v
  {
    match v
    case Leaf(xs) => if k == 0 then |xs| else 0
    case Node(cs) =>
      if k == 0 then |cs| else MaxOf(seq(|cs|, i requires 0 <= i < |cs| => Width(cs[i], k - 1)))
  }

  /** The widths of the children of a node at depth k below each of them. */
  function Widths<T>(cs: seq<InitVal<T>>, k: nat): (ws: seq<nat>)
    ensures |ws| == |cs| && forall i :: 0 <= i < |cs| ==> ws[i] == Width(cs[i], k)
  {
    seq(|cs|, i requires 0 <= i < |cs| => Width(cs[i], k))
  }

  /**
   * The width of a node below its top level is the largest width of its
   * children: no child list is longer, and some child attains it.
   */
  lemma WidthIsLargestChild<T>(cs: seq<InitVal<T>>, k: nat)
    ensures Width(Node(cs), k + 1) == MaxOf(Widths(cs, k))
    ensures forall i :: 0 <= i < |cs| ==> Width(cs[i], k) <= Width(Node(cs), k + 1)
    ensures |cs| > 0 ==> exists i :: 0 <= i < |cs| && Width(cs[i], k) == Width(Node(cs), k + 1)
  {
    var ws := Widths(cs, k);
    assert seq(|cs|, i requires 0 <= i < |cs| => Width(cs[i], k)) == ws;
    MaxOfIsMaximum(ws);
  }

  /** init_val_base of depth 1: the arguments, pushed back one after the other. */
  method LeafOf<T>(args: seq<T>) returns (v: InitVal<T>)
    ensures v == Leaf(args) && HasDepth(v, 1)
  {
    var ch: seq<T> := [];
    var i := 0;
    while i < |args|
      invariant 0 <= i <= |args| && ch == args[..i]
    {
      ch := ch + [args[i]];
      i := i + 1;
    }
    assert args[..|args|] == args;
    v := Leaf(ch);
  }

  /** init_val_base of depth n > 1: the sub-initializers, pushed back one after the other. */
  method NodeOf<T>(args: seq<InitVal<T>>, n: nat) returns (v: InitVal<T>)
    requires n >= 2 && forall i :: 0 <= i < |args| ==> HasDepth(args[i], n - 1)
    ensures v == Node(args) && HasDepth(v, n)
  {
    var ch: seq<InitVal<T>> := [];
    var i := 0;
    while i < |args|
      invariant 0 <= i <= |args| && ch == args[..i]
    {
      ch := ch + [args[i]];
      i := i + 1;
    }
    assert args[..|args|] == args;
    v := Node(ch);
  }

  /** dst after collect_shape(base, dst + d) with n levels: entry d + k is raised to the width of base at depth k. */
  function Collected<T>(s: seq<nat>, base: InitVal<T>, d: nat, n: nat): (r: seq<nat>)
    requires d + n <= |s|
    ensures |r| == |s|
  {
    seq(|s|, j requires 0 <= j < |s| => if d <= j < d + n then Max(s[j], Width(base, j - d)) else s[j])
  }

  /** dst once the first i children cs[..i] of a node at dst + d have been collected below it. */
  function ChildrenUpTo<T>(s: seq<nat>, cs: seq<InitVal<T>>, i: nat, d: nat, n: nat): (r: seq<nat>)
    requires i <= |cs| && d + n <= |s|
    ensures |r| == |s|
  {
    seq(|s|, j requires 0 <= j < |s| => if d < j < d + n then Max(s[j], MaxOf(Widths(cs, j - d - 1)[..i])) else s[j])
  }

  /** No child collected: nothing raised. */
  lemma NoChildren<T>(s: seq<nat>, cs: seq<InitVal<T>>, d: nat, n: nat)
    requires d + n <= |s|
    ensures ChildrenUpTo(s, cs, 0, d, n) == s
  {
    forall j | 0 <= j < |s| ensures ChildrenUpTo(s, cs, 0, d, n)[j] == s[j] {
      if d < j < d + n {
        assert Widths(cs, j - d - 1)[..0] == [];
      }
    }
  }

  /** Collecting child i below d, after children cs[..i], gives the state after cs[..i + 1]. */
  lemma ChildCollected<T>(s: seq<nat>, cs: seq<InitVal<T>>, i: nat, d: nat, n: nat)
    requires i < |cs| && n >= 1 && d + n <= |s|
    ensures Collected(ChildrenUpTo(s, cs, i, d, n), cs[i], d + 1, n - 1) == ChildrenUpTo(s, cs, i + 1, d, n)
  {
    var lhs := Collected(ChildrenUpTo(s, cs, i, d, n), cs[i], d + 1, n - 1);
    var rhs := ChildrenUpTo(s, cs, i + 1, d, n);
    forall j | 0 <= j < |s| ensures lhs[j] == rhs[j] {
      if d < j < d + n {
        var ws := Widths(cs, j - d - 1);
        assert ws[..i + 1][..i] == ws[..i];
      }
    }
  }

  /** All children collected below d, after raising entry d to the count of the node, is collect_shape of the node. */
  lemma NodeCollected<T>(s: seq<nat>, cs: seq<InitVal<T>>, d: nat, n: nat)
    requires n >= 1 && d + n <= |s|
    ensures ChildrenUpTo(s[d := Max(s[d], |cs|)], cs, |cs|, d, n) == Collected(s, Node(cs), d, n)
  {
    var lhs := ChildrenUpTo(s[d := Max(s[d], |cs|)], cs, |cs|, d, n);
    var rhs := Collected(s, Node(cs), d, n);
    forall j | 0 <= j < |s| ensures lhs[j] == rhs[j] {
      if d < j < d + n {
        WidthIsLargestChild(cs, j - d - 1);
        assert Widths(cs, j - d - 1)[..|cs|] == Widths(cs, j - d - 1);
      }
    }
  }

  /**
   * collect_shape: raises dst[d] to the top-level count of base and then,
   * one child after the other, collects the children at dst[d + 1]. Every
   * entry it reaches becomes the larger of its old value and the width of
   * base at that depth, and nothing else changes.
   */
  method CollectShape<T>(base: InitVal<T>, n: nat, dst: array<nat>, d: nat)
    requires HasDepth(base, n) && d + n <= dst.Length
    modifies dst
    ensures dst[..] == Collected(old(dst[..]), base, d, n)
    decreases base, 1
  {
    ghost var s := dst[..];
    dst[d] := Max(dst[d], Count(base));
    match base
    case Leaf(_) =>
      assert dst[..] == Collected(s, base, d, n);
    case Node(cs) =>
      assert dst[..] == s[d := Max(s[d], |cs|)];
      CollectChildren(base, n, dst, d);
      NodeCollected(s, cs, d, n);
  }

  /** The loop of collect_shape over the children of base, each collected at dst[d + 1]. */
  method CollectChildren<T>(base: InitVal<T>, n: nat, dst: array<nat>, d: nat)
    requires base.Node? && HasDepth(base, n) && d + n <= dst.Length
    modifies dst
    ensures dst[..] == ChildrenUpTo(old(dst[..]), base.ch, |base.ch|, d, n)
    decreases base, 0
  {
    var cs := base.ch;
    ghost var s := dst[..];
    NoChildren(s, cs, d, n);
    var i := 0;
    while i < |cs|
      invariant 0 <= i <= |cs| && dst[..] == ChildrenUpTo(s, cs, i, d, n)
    {
      ChildCollected(s, cs, i, d, n);
      CollectShape(cs[i], n - 1, dst, d + 1);
      i := i + 1;
    }
  }

}
