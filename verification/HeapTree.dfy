/** The heap numbering of a segment tree over n positions: node 1 is the root, and node v
    has children 2 * v and 2 * v + 1 until its span is a single position. */
module HeapTree {
  import opened Arith

  datatype Span = NoSpan | Span(lo: nat, hi: nat)

  function SpanOf(n: nat, node: nat): Span
    requires n > 0
  {
    if node == 0 then NoSpan
    else if node == 1 then Span(0, n - 1)
    else
      match SpanOf(n, node / 2)
      case NoSpan => NoSpan
      case Span(lo, hi) =>
        if lo >= hi then NoSpan
        else
          var mid := (lo + hi) / 2;
          if node % 2 == 0 then Span(lo, mid) else Span(mid + 1, hi)
  }

  ghost predicate IsInner(n: nat, node: nat)
    requires n > 0
  {
    SpanOf(n, node).Span? && SpanOf(n, node).lo < SpanOf(n, node).hi
  }

  /** The largest power of two not above node: the number of the first node on its level. */
  ghost function LevelStart(node: nat): nat
    requires node > 0
  {
    if node == 1 then 1 else 2 * LevelStart(node / 2)
  }

  lemma {:induction false} LevelBounds(node: nat)
    requires node > 0
    ensures 0 < LevelStart(node) <= node < 2 * LevelStart(node)
  {
    if node > 1 { LevelBounds(node / 2); }
  }

  lemma HalvedSpan(lo: nat, hi: nat, p: nat, m: nat)
    requires lo < hi && (hi - lo) * p <= m
    ensures var mid := (lo + hi) / 2;
            && (mid - lo) * (2 * p) <= m
            && (hi - (mid + 1)) * (2 * p) <= m
  {
    var mid := (lo + hi) / 2;
    var left, right := mid - lo, hi - (mid + 1);
    assert 2 * left <= hi - lo && 2 * right <= hi - lo;
    MulLe(2 * left, hi - lo, p);
    MulLe(2 * right, hi - lo, p);
    assert left * (2 * p) == 2 * left * p;
    assert right * (2 * p) == 2 * right * p;
  }

  /** The spans shrink by half from level to level, so they are never longer than the level allows. */
  lemma {:induction false} SpanShrinks(n: nat, node: nat)
    requires n > 0 && SpanOf(n, node).Span?
    ensures SpanOf(n, node).lo <= SpanOf(n, node).hi < n
    ensures (SpanOf(n, node).hi - SpanOf(n, node).lo) * LevelStart(node) <= n - 1
  {
    if node > 1 {
      SpanShrinks(n, node / 2);
      var Span(lo, hi) := SpanOf(n, node / 2);
      HalvedSpan(lo, hi, LevelStart(node / 2), n - 1);
    }
  }

  /** Every node of the tree, and both children of every inner node, lie below 4 * n. */
  lemma NodeBelow(n: nat, node: nat)
    requires n > 0 && SpanOf(n, node).Span?
    ensures 0 < node < 4 * n
    ensures SpanOf(n, node).lo <= SpanOf(n, node).hi < n
    ensures IsInner(n, node) ==> 2 * node + 1 < 4 * n
  {
    SpanShrinks(n, node);
    LevelBounds(node);
    var Span(lo, hi) := SpanOf(n, node);
    var p := LevelStart(node);
    if lo < hi {
      MulLe(1, hi - lo, p);
    } else if node > 1 {
      SpanShrinks(n, node / 2);
      LevelBounds(node / 2);
      var above := SpanOf(n, node / 2);
      MulLe(1, above.hi - above.lo, LevelStart(node / 2));
    }
  }

  lemma ChildSpans(n: nat, node: nat)
    requires n > 0 && IsInner(n, node)
    ensures var Span(lo, hi) := SpanOf(n, node);
            var mid := (lo + hi) / 2;
            && SpanOf(n, 2 * node) == Span(lo, mid) && SpanOf(n, 2 * node + 1) == Span(mid + 1, hi)
            && lo <= mid < hi
  {
    assert (2 * node) / 2 == node && (2 * node + 1) / 2 == node;
  }

  /** The children of a node share its positions out: the left one has the first half, and the middle one
      if their number is odd. */
  lemma ChildrenHalve(n: nat, node: nat)
    requires n > 0 && IsInner(n, node)
    ensures SpanOf(n, 2 * node).Span? && SpanOf(n, 2 * node + 1).Span?
    ensures var all, left, right := SpanOf(n, node), SpanOf(n, 2 * node), SpanOf(n, 2 * node + 1);
            && left.lo == all.lo && right.lo == left.hi + 1 && right.hi == all.hi
            && 0 <= (left.hi - left.lo) - (right.hi - right.lo) <= 1
  {
    ChildSpans(n, node);
  }

  /** Node a is v or one of the nodes above it. */
  predicate Above(a: nat, v: nat) {
    a == v || (v > 0 && Above(a, v / 2))
  }

  lemma {:induction false} AboveIsSmaller(a: nat, v: nat)
    requires Above(a, v)
    ensures a <= v
  {
    if a != v { AboveIsSmaller(a, v / 2); }
  }

  lemma {:induction false} AboveTransitive(a: nat, b: nat, c: nat)
    requires Above(a, b) && Above(b, c)
    ensures Above(a, c)
  {
    if b != c { AboveTransitive(a, b, c / 2); }
  }

  lemma {:induction false} RootAbove(v: nat)
    requires v > 0
    ensures Above(1, v)
  {
    if v > 1 { RootAbove(v / 2); }
  }

  /** Nodes below a are a itself and the nodes below its two children. */
  lemma {:induction false} BelowSplits(a: nat, v: nat)
    requires a > 0
    ensures Above(a, v) <==> v == a || Above(2 * a, v) || Above(2 * a + 1, v)
  {
    if v > a {
      BelowSplits(a, v / 2);
      if v / 2 == a { assert v == 2 * a || v == 2 * a + 1; }
    } else if v < a {
      if Above(a, v) { AboveIsSmaller(a, v); }
      if Above(2 * a, v) { AboveIsSmaller(2 * a, v); }
      if Above(2 * a + 1, v) { AboveIsSmaller(2 * a + 1, v); }
    }
  }

  /** The subtrees of two siblings are disjoint. */
  lemma {:induction false} SiblingsApart(a: nat, v: nat)
    requires a > 0
    ensures !(Above(2 * a, v) && Above(2 * a + 1, v))
  {
    if Above(2 * a, v) && Above(2 * a + 1, v) {
      AboveIsSmaller(2 * a, v);
      AboveIsSmaller(2 * a + 1, v);
      if v == 2 * a + 1 { AboveIsSmaller(2 * a, v / 2); } else { SiblingsApart(a, v / 2); }
      assert false;
    }
  }

  lemma NotAboveChildren(p: nat)
    requires p > 0
    ensures !Above(2 * p, p) && !Above(2 * p + 1, p)
  {
    if Above(2 * p, p) { AboveIsSmaller(2 * p, p); }
    if Above(2 * p + 1, p) { AboveIsSmaller(2 * p + 1, p); }
  }

  lemma {:induction false} SpanNested(n: nat, a: nat, v: nat)
    requires n > 0 && a > 0 && SpanOf(n, v).Span? && Above(a, v)
    ensures SpanOf(n, a).Span? && SpanOf(n, a).lo <= SpanOf(n, v).lo && SpanOf(n, v).hi <= SpanOf(n, a).hi
  {
    if a != v {
      AboveIsSmaller(a, v);
      SpanNested(n, a, v / 2);
      NodeBelow(n, v / 2);
    }
  }

  /** The nodes whose span contains a leaf's position are those above the leaf. */
  lemma {:induction false} OnPath(n: nat, v: nat, leaf: nat, id: nat)
    requires n > 0 && SpanOf(n, leaf) == Span(id, id)
    requires SpanOf(n, v).Span? && SpanOf(n, v).lo <= id <= SpanOf(n, v).hi
    ensures Above(v, leaf)
  {
    if v == 1 {
      RootAbove(leaf);
    } else {
      var p := v / 2;
      ChildSpans(n, p);
      OnPath(n, p, leaf, id);
      BelowSplits(p, leaf);
      var other := if v == 2 * p then 2 * p + 1 else 2 * p;
      if Above(other, leaf) { SpanNested(n, other, leaf); }
    }
  }

  lemma LeafUnique(n: nat, v: nat, leaf: nat, id: nat)
    requires n > 0 && SpanOf(n, leaf) == Span(id, id) && SpanOf(n, v) == Span(id, id)
    ensures v == leaf
  {
    OnPath(n, v, leaf, id);
    OnPath(n, leaf, v, id);
    AboveIsSmaller(v, leaf);
    AboveIsSmaller(leaf, v);
  }

  lemma {:induction false} NothingBelowLeaf(n: nat, leaf: nat, v: nat)
    requires n > 0 && leaf > 0 && !IsInner(n, leaf) && Above(leaf, v) && v != leaf
    ensures SpanOf(n, v) == NoSpan
  {
    if v / 2 != leaf { NothingBelowLeaf(n, leaf, v / 2); }
    AboveIsSmaller(leaf, v);
  }

  /** The nodes below an inner node are those below its left and those below its right child, and itself. */
  lemma BelowChildren(node: nat)
    requires node > 0
    ensures forall v: nat :: Above(node, v) <==> v == node || Above(2 * node, v) || Above(2 * node + 1, v)
    ensures forall v: nat :: !(Above(2 * node, v) && Above(2 * node + 1, v))
    ensures !Above(2 * node, node) && !Above(2 * node + 1, node)
  {
    hide Above;
    forall v: nat
      ensures Above(node, v) <==> v == node || Above(2 * node, v) || Above(2 * node + 1, v)
      ensures !(Above(2 * node, v) && Above(2 * node + 1, v))
    {
      BelowSplits(node, v);
      SiblingsApart(node, v);
    }
    NotAboveChildren(node);
  }
}
