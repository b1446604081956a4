/** The root template (`generate_app`): the deepest nesting over all pages,
    one level number and one `props_<level>` declaration per level, and the
    nested layout "pyramid" rendered inside the outer `<Layout>` when there
    is no error. The template text is modelled by its structure. */
module RootApp {
  import opened ManifestTypes
  import Text

  // ---------------------------------------------------------------------
  // max_depth

  /** `parts.filter(Boolean).length`. */
  function TruthyCount(parts: seq<Part>): (n: nat)
    ensures n <= |parts|
    ensures n == 0 <==> forall k :: 0 <= k < |parts| ==> !Truthy(parts[k])
    ensures n == |parts| <==> forall k :: 0 <= k < |parts| ==> Truthy(parts[k])
  {
    if parts == [] then 0
    else
      var rest := TruthyCount(parts[1..]);
      assert forall k :: 1 <= k < |parts| ==> parts[k] == parts[1..][k - 1];
      (if Truthy(parts[0]) then 1 else 0) + rest
  }

  /** Falsy slots anywhere do not count: the count of a concatenation is the
      sum of the counts. */
  lemma {:induction false} TruthyCountAppend(a: seq<Part>, b: seq<Part>)
    ensures TruthyCount(a + b) == TruthyCount(a) + TruthyCount(b)
  {
    if a == [] {
      assert a + b == b;
    } else {
      assert (a + b)[0] == a[0];
      assert (a + b)[1..] == a[1..] + b;
      TruthyCountAppend(a[1..], b);
    }
  }

  /** The value of `Math.max(...)`: `-Infinity` for no arguments. */
  datatype Depth = NegInfinity | Finite(n: nat)

  /** `max_depth`: the largest truthy-part count over the pages, with no
      subtraction of one. */
  function MaxDepth(pages: seq<Page>): (d: Depth)
    ensures d.NegInfinity? <==> pages == []
    ensures d.Finite? ==> forall i :: 0 <= i < |pages| ==> TruthyCount(pages[i].parts) <= d.n
    ensures d.Finite? ==> exists i :: 0 <= i < |pages| && TruthyCount(pages[i].parts) == d.n
  {
    if pages == [] then NegInfinity
    else
      var rest := MaxDepth(pages[1..]);
      var c := TruthyCount(pages[0].parts);
      assert forall i :: 1 <= i < |pages| ==> pages[i] == pages[1..][i - 1];
      if rest.NegInfinity? || c >= rest.n then Finite(c)
      else
        ghost var i :| 0 <= i < |pages[1..]| && TruthyCount(pages[1..][i].parts) == rest.n;
        assert pages[i + 1] == pages[1..][i];
        rest
  }

  // ---------------------------------------------------------------------
  // levels and the props declarations

  /** `levels`: the `for` loop pushing 0, 1, ..., max_depth (nothing when
      max_depth is `-Infinity`). */
  method BuildLevels(maxDepth: Depth) returns (levels: seq<nat>)
    ensures maxDepth.NegInfinity? ==> levels == []
    ensures maxDepth.Finite? ==> |levels| == maxDepth.n + 1
    ensures forall k :: 0 <= k < |levels| ==> levels[k] == k
  {
    levels := [];
    if maxDepth.Finite? {
      var i := 0;
      while i <= maxDepth.n
        invariant 0 <= i <= maxDepth.n + 1
        invariant |levels| == i
        invariant forall k :: 0 <= k < i ==> levels[k] == k
      {
        levels := levels + [i];
        i := i + 1;
      }
    }
  }

  /** The variable declared for a level's props, `props_<level>`. */
  function PropsName(level: nat): (name: string)
    ensures |name| > 6 && name[..6] == "props_"
    ensures forall k :: 0 <= k < |name[6..]| ==> '0' <= name[6..][k] <= '9'
    ensures Text.DecimalValue(name[6..]) == level
    ensures |name| > 7 ==> name[6] != '0'
  {
    Text.NatToStringValue(level);
    assert ("props_" + Text.NatToString(level))[6..] == Text.NatToString(level);
    "props_" + Text.NatToString(level)
  }

  /** Distinct levels get distinct props variables. */
  lemma PropsNameInjective(a: nat, b: nat)
    requires PropsName(a) == PropsName(b)
    ensures a == b
  {
    assert PropsName(a)[6..] == Text.NatToString(a);
    assert PropsName(b)[6..] == Text.NatToString(b);
    Text.NatToStringInjective(a, b);
  }

  // ---------------------------------------------------------------------
  // The pyramid

  /** A `<svelte:component this={components[level]}>` element: the innermost
      one without children, or one whose only child sits under
      `{#if components[guard]}`. The innermost level is `max_depth` itself,
      which may be `-Infinity`. */
  datatype Pyramid = Leaf(depth: Depth) | Wrap(level: nat, guard: nat, child: Pyramid)

  /** The pyramid from level `lo` inwards to level `n`. */
  function PyramidFrom(lo: nat, n: nat): (p: Pyramid)
    ensures lo <= n ==> Innermost(p) == Finite(n) && Outer(p) == Finite(lo) && Conditionals(p) == n - lo
    decreases n - lo
  {
    if lo >= n then Leaf(Finite(n)) else Wrap(lo, lo + 1, PyramidFrom(lo + 1, n))
  }

  /** The pyramid for a given `max_depth`: levels 1 to max_depth, or the
      single level max_depth when that is below 2. */
  function PyramidFor(d: Depth): (p: Pyramid)
    ensures Innermost(p) == d
    ensures d.Finite? && d.n >= 1 ==> Outer(p) == Finite(1) && Conditionals(p) == d.n - 1
    ensures d.Finite? && d.n == 0 ==> p == Leaf(Finite(0))
  {
    match d
    case NegInfinity => Leaf(NegInfinity)
    case Finite(n) => PyramidFrom(1, n)
  }

  /** The levels of the component elements, outermost first. */
  function Levels(p: Pyramid): seq<Depth>
  {
    match p
    case Leaf(d) => [d]
    case Wrap(l, _, c) => [Finite(l)] + Levels(c)
  }

  function Outer(p: Pyramid): Depth
  {
    match p
    case Leaf(d) => d
    case Wrap(l, _, _) => Finite(l)
  }

  function Innermost(p: Pyramid): Depth
  {
    match p
    case Leaf(d) => d
    case Wrap(_, _, c) => Innermost(c)
  }

  function Conditionals(p: Pyramid): nat
  {
    match p
    case Leaf(_) => 0
    case Wrap(_, _, c) => 1 + Conditionals(c)
  }

  /** Every conditional tests the component of the level directly inside it,
      and that is the level of the element it wraps. */
  predicate WellNested(p: Pyramid)
  {
    match p
    case Leaf(_) => true
    case Wrap(l, g, c) => g == l + 1 && Outer(c) == Finite(g) && WellNested(c)
  }

  lemma {:induction false} PyramidFromShape(lo: nat, n: nat)
    requires lo <= n
    ensures Levels(PyramidFrom(lo, n)) == seq(n - lo + 1, k requires 0 <= k => Finite(lo + k))
    ensures Outer(PyramidFrom(lo, n)) == Finite(lo)
    ensures Innermost(PyramidFrom(lo, n)) == Finite(n)
    ensures Conditionals(PyramidFrom(lo, n)) == n - lo
    ensures WellNested(PyramidFrom(lo, n))
    decreases n - lo
  {
    if lo < n {
      PyramidFromShape(lo + 1, n);
      assert seq(n - lo + 1, k requires 0 <= k => Finite(lo + k)) == [Finite(lo)] + seq(n - (lo + 1) + 1, k requires 0 <= k => Finite(lo + 1 + k));
    }
  }

  /** For `max_depth >= 1` the pyramid has one element per level 1 to
      max_depth, outermost first, and `max_depth - 1` conditionals, each
      testing the next level; the innermost element is level max_depth. For
      `max_depth == 0` it is a single unconditional element of level 0. */
  lemma PyramidShape(n: nat)
    ensures n >= 1 ==> Levels(PyramidFor(Finite(n))) == seq(n, k requires 0 <= k => Finite(k + 1))
    ensures n >= 1 ==> Conditionals(PyramidFor(Finite(n))) == n - 1
    ensures Innermost(PyramidFor(Finite(n))) == Finite(n)
    ensures WellNested(PyramidFor(Finite(n)))
    ensures n == 0 ==> PyramidFor(Finite(n)) == Leaf(Finite(0))
  {
    if n >= 1 {
      PyramidFromShape(1, n);
      assert seq(n - 1 + 1, k requires 0 <= k => Finite(1 + k)) == seq(n, k requires 0 <= k => Finite(k + 1));
    }
  }

  /** The decrementing `while (l-- > 1)` loop: starting from the innermost
      element of level max_depth, each pass wraps the pyramid so far in the
      element of the next lower level. */
  method BuildPyramid(maxDepth: Depth) returns (p: Pyramid)
    ensures p == PyramidFor(maxDepth)
  {
    p := Leaf(maxDepth);
    if maxDepth.Finite? {
      var n := maxDepth.n;
      var l := n;
      while l > 1
        invariant 1 <= l <= n || l == n == 0
        invariant p == PyramidFrom(l, n)
      {
        l := l - 1;
        p := Wrap(l, l + 1, p);
      }
    }
  }

  // ---------------------------------------------------------------------
  // The template

  /** `<Layout {...(props_0 || {})}>`: level 0, showing the error component
      when there is an error and the pyramid otherwise. */
  datatype LayoutShell = LayoutShell(props: string, errorComponent: string, otherwise: Pyramid)

  datatype RootTemplate = RootTemplate(maxDepth: Depth, levels: seq<nat>, props: seq<string>, layout: LayoutShell)

  /** `generate_app` with `resolve` standing for `relative(dir, ·)`. */
  method GenerateApp(md: ManifestData, resolve: string -> string) returns (t: RootTemplate)
    ensures t.maxDepth == MaxDepth(md.pages)
    ensures md.pages == [] ==> t.levels == []
    ensures md.pages != [] ==> |t.levels| == t.maxDepth.n + 1
    ensures forall k :: 0 <= k < |t.levels| ==> t.levels[k] == k
    ensures |t.props| == |t.levels|
    ensures forall k :: 0 <= k < |t.levels| ==> t.props[k] == PropsName(t.levels[k])
    ensures t.layout.props == PropsName(0)
    ensures t.layout.errorComponent == resolve(md.error)
    ensures t.layout.otherwise == PyramidFor(t.maxDepth)
  {
    var maxDepth := MaxDepth(md.pages);
    var levels := BuildLevels(maxDepth);
    var pyramid := BuildPyramid(maxDepth);
    var props := seq(|levels|, k requires 0 <= k < |levels| => PropsName(levels[k]));
    t := RootTemplate(maxDepth, levels, props, LayoutShell(PropsName(0), resolve(md.error), pyramid));
  }
}
