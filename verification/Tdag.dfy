/** The one-dimensional cover tree: a binary tree of ranges in which every node but the two
    lowest levels also has a middle range that straddles its two halves. */
module Tdags {
  import opened Arith
  import opened Sequences

  datatype Range = Range(lo: int, hi: int) {
    predicate Contains(r: Range) { lo <= r.lo && hi >= r.hi }
    predicate Has(v: int) { lo <= v <= hi }
    function Length(): int { hi - lo + 1 }
  }

  const NONE := Range(-1, -1)

  datatype Child = Absent | Present(tdag: Tdag)

  datatype Tdag = Tdag(height: int, range: Range, middle: Range, left: Child, right: Child)

  function Midpoint(r: Range): int { r.lo + (r.hi - r.lo) / 2 }

  /** The middle range that the constructor and the descent compute alike. */
  function Middle(r: Range): Range {
    var quarter := (r.hi - r.lo) / 4;
    Range(Midpoint(r) - quarter, Midpoint(r) + quarter + if (r.hi - r.lo) % 4 > 0 then 1 else 0)
  }

  /** The constructor. */
  function Build(h: int, l: int, r: int): Tdag
    decreases h
  {
    var range := Range(l, r);
    if h <= 0 then Tdag(h, range, NONE, Absent, Absent)
    else
      Tdag(h, range,
           if r - l > 1 then Middle(range) else NONE,
           Present(Build(h - 1, l, Midpoint(range))),
           if Midpoint(range) + 1 <= r then Present(Build(h - 1, Midpoint(range) + 1, r)) else Absent)
  }

  function FullRange(h: nat, l: int): Range { Range(l, l + Pow2(h) - 1) }

  function TreeAt(h: nat, l: int): Tdag { Build(h, l, l + Pow2(h) - 1) }

  /** The tree over the values 0, ..., 2^h - 1. */
  function Initialize(h: nat): Tdag { Build(h, 0, Pow2(h) - 1) }

  /** The lowest tree with at least n values. */
  ghost predicate LowestFor(n: int, h: nat) { Pow2(h) >= n && forall i: nat :: i < h ==> Pow2(i) < n }

  /** A node range or a middle range somewhere in the tree. */
  ghost predicate HasRange(t: Tdag, r: Range) {
    || r == t.range
    || (t.middle.lo != -1 && r == t.middle)
    || (t.left.Present? && HasRange(t.left.tdag, r))
    || (t.right.Present? && HasRange(t.right.tdag, r))
  }

  /** The halves and the middle of a tree over a power of two. */
  lemma Shape(h: nat, l: int)
    requires l >= 0
    ensures TreeAt(h, l).range == FullRange(h, l)
    ensures h == 0 ==> TreeAt(h, l).middle == NONE && TreeAt(h, l).left == TreeAt(h, l).right == Absent
    ensures h > 0 ==>
      && Pow2(h) == 2 * Pow2(h - 1)
      && Midpoint(FullRange(h, l)) == l + Pow2(h - 1) - 1
      && TreeAt(h, l).left == Present(TreeAt(h - 1, l))
      && TreeAt(h, l).right == Present(TreeAt(h - 1, l + Pow2(h - 1)))
    ensures h == 1 ==> TreeAt(h, l).middle == NONE
    ensures h > 1 ==>
      && Pow2(h - 1) == 2 * Pow2(h - 2)
      && Middle(FullRange(h, l)) == TreeAt(h, l).middle == Range(l + Pow2(h - 2), l + 3 * Pow2(h - 2) - 1)
  {
    if h > 0 {
      assert Pow2(h) == 2 * Pow2(h - 1);
      assert (Pow2(h) - 1) / 2 == Pow2(h - 1) - 1;
    }
    if h > 1 {
      var q := Pow2(h - 2);
      assert Pow2(h) == 4 * q;
      assert (4 * q - 1) / 4 == q - 1 && (4 * q - 1) % 4 == 3;
    }
  }

  // ----- the tree in arithmetic terms

  ghost function MiddleAt(h: nat, l: int): Range
    requires h > 1
  {
    Range(l + Pow2(h - 2), l + 3 * Pow2(h - 2) - 1)
  }

  ghost predicate InTree(h: nat, l: int, r: Range) {
    || r == FullRange(h, l)
    || (h > 1 && r == MiddleAt(h, l))
    || (h > 0 && (InTree(h - 1, l, r) || InTree(h - 1, l + Pow2(h - 1), r)))
  }

  /** t is the tree over the 2^h values from l on. */
  ghost predicate IsTreeAt(t: Tdag, h: nat, l: int) {
    && t.range == FullRange(h, l)
    && t.middle == (if h > 1 then MiddleAt(h, l) else NONE)
    && if h == 0 then t.left == t.right == Absent
       else t.left.Present? && t.right.Present?
            && IsTreeAt(t.left.tdag, h - 1, l) && IsTreeAt(t.right.tdag, h - 1, l + Pow2(h - 1))
  }

  lemma {:induction false} BuildIsTreeAt(h: nat, l: int)
    requires l >= 0
    ensures IsTreeAt(TreeAt(h, l), h, l)
    decreases h
  {
    hide TreeAt, Build, Middle, Midpoint, FullRange, Pow2;
    Shape(h, l);
    if h > 0 {
      BuildIsTreeAt(h - 1, l);
      BuildIsTreeAt(h - 1, l + Pow2(h - 1));
    }
  }

  lemma InitializeIsTree(h: nat)
    ensures IsTreeAt(Initialize(h), h, 0)
  {
    BuildIsTreeAt(h, 0);
  }

  lemma {:induction false} InTreeIsHasRange(t: Tdag, h: nat, l: int, r: Range)
    requires l >= 0 && IsTreeAt(t, h, l)
    ensures InTree(h, l, r) <==> HasRange(t, r)
    decreases h
  {
    if h > 0 {
      InTreeIsHasRange(t.left.tdag, h - 1, l, r);
      InTreeIsHasRange(t.right.tdag, h - 1, l + Pow2(h - 1), r);
    }
  }

  lemma Halves(h: nat)
    ensures h > 0 ==> Pow2(h) == 2 * Pow2(h - 1)
    ensures h > 1 ==> Pow2(h - 1) == 2 * Pow2(h - 2)
  {}

  lemma {:induction false} RangesInside(h: nat, l: int, r: Range)
    requires InTree(h, l, r)
    ensures FullRange(h, l).Contains(r) && r.lo <= r.hi
    decreases h
  {
    Halves(h);
    if h > 0 {
      if InTree(h - 1, l, r) { RangesInside(h - 1, l, r); }
      if InTree(h - 1, l + Pow2(h - 1), r) { RangesInside(h - 1, l + Pow2(h - 1), r); }
    }
  }

  // ----- the ranges in plain numbers

  /** 2^i values from a multiple of 2^i on. */
  ghost predicate Aligned(i: nat, r: Range) { 0 <= r.lo && r.lo % Pow2(i) == 0 && r.hi == r.lo + Pow2(i) - 1 }

  /** The middle half of 2^(i+2) such values. */
  ghost predicate Straddling(i: nat, r: Range) {
    0 <= r.lo && r.lo % Pow2(i + 2) == Pow2(i) && r.hi == r.lo + Pow2(i + 1) - 1
  }

  ghost predicate Regular(h: nat, r: Range) {
    (exists i: nat :: i <= h && Aligned(i, r)) || exists i: nat :: i + 2 <= h && Straddling(i, r)
  }

  /** A block of 2^k values that starts at or behind a multiple of 2^k below m ends no later than m. */
  lemma BlockBefore(k: nat, start: nat, m: nat)
    requires start % Pow2(k) == 0 && m % Pow2(k) == 0 && start < m
    ensures start + Pow2(k) <= m
  {
    NoMultipleBetween(start, m, Pow2(k));
  }

  lemma HalfStarts(h: nat, l: nat, k: nat)
    requires h > 0 && l % Pow2(h) == 0 && k < h
    ensures l % Pow2(h - 1) == 0 && (l + Pow2(h - 1)) % Pow2(h - 1) == 0
    ensures l % Pow2(k) == 0 && (l + Pow2(h - 1)) % Pow2(k) == 0
  {
    MultipleOfDouble(l, Pow2(h - 1));
    MultipleOf(1, Pow2(h - 1));
    SumOfMultiples(l, Pow2(h - 1), Pow2(h - 1));
    Pow2Divides(k, h);
    Pow2Divides(k, h - 1);
    DividesOn(l, Pow2(h), Pow2(k));
    SumOfMultiples(l, Pow2(h - 1), Pow2(k));
  }

  lemma DividesOn(a: nat, b: nat, c: nat)
    requires b > 0 && c > 0 && a % b == 0 && b % c == 0
    ensures a % c == 0
  {
    var p, q := a / b, b / c;
    assert a == p * b && b == q * c;
    assert a == (p * q) * c;
    MultipleOf(p * q, c);
  }

  /** An aligned block inside a node is the node or lies in one half. */
  lemma AlignedInHalf(h: nat, l: nat, i: nat, r: Range)
    requires l % Pow2(h) == 0 && i <= h && Aligned(i, r) && FullRange(h, l).Contains(r)
    ensures if i == h then r == FullRange(h, l)
            else FullRange(h - 1, l).Contains(r) || FullRange(h - 1, l + Pow2(h - 1)).Contains(r)
  {
    if i < h {
      HalfStarts(h, l, i);
      if r.lo < l + Pow2(h - 1) { BlockBefore(i, r.lo, l + Pow2(h - 1)); }
    }
  }

  lemma StraddlingInHalf(h: nat, l: nat, i: nat, r: Range)
    requires l % Pow2(h) == 0 && i + 2 <= h && Straddling(i, r) && FullRange(h, l).Contains(r)
    ensures if i + 2 == h then r == MiddleAt(h, l)
            else FullRange(h - 1, l).Contains(r) || FullRange(h - 1, l + Pow2(h - 1)).Contains(r)
  {
    var block := r.lo - Pow2(i);
    var k := i + 2;
    assert Pow2(k) == 2 * Pow2(i + 1) == 4 * Pow2(i);
    BlockStart(r.lo, Pow2(k), Pow2(i));
    if k == h {
      Pow2Divides(k, h);
      if l < block { BlockBefore(h, l, block); }
      if block < l { BlockBefore(h, block, l); }
    } else {
      HalfStarts(h, l, k);
      if block < l + Pow2(h - 1) { BlockBefore(k, block, l + Pow2(h - 1)); }
      if block < l { BlockBefore(k, block, l); }
    }
  }

  lemma BlockStart(a: nat, k: nat, r: nat)
    requires k > 0 && a % k == r
    ensures a >= r && (a - r) % k == 0
  {
    QuotientNat(a, k);
    assert a == a / k * k + r;
    MultipleOf(a / k, k);
  }

  lemma {:induction false} InTreeIsRegular(h: nat, l: nat, r: Range)
    requires l % Pow2(h) == 0
    ensures InTree(h, l, r) <==> Regular(h, r) && FullRange(h, l).Contains(r)
    decreases h
  {
    Halves(h);
    if h > 0 {
      HalfStarts(h, l, 0);
      InTreeIsRegular(h - 1, l, r);
      InTreeIsRegular(h - 1, l + Pow2(h - 1), r);
    }
    if InTree(h, l, r) { TreeRangeRegular(h, l, r); }
    if Regular(h, r) && FullRange(h, l).Contains(r) { RegularInTree(h, l, r); }
  }

  lemma TreeRangeRegular(h: nat, l: nat, r: Range)
    requires l % Pow2(h) == 0 && InTree(h, l, r)
    requires h > 0 ==> (InTree(h - 1, l, r) || InTree(h - 1, l + Pow2(h - 1), r) ==> Regular(h - 1, r))
    ensures Regular(h, r) && FullRange(h, l).Contains(r)
  {
    RangesInside(h, l, r);
    if r == FullRange(h, l) {
      assert Aligned(h, r);
    } else if h > 1 && r == MiddleAt(h, l) {
      assert Pow2(h) == 4 * Pow2(h - 2) && Pow2(h - 1) == 2 * Pow2(h - 2);
      assert l == l / Pow2(h) * Pow2(h);
      QuotientNat(l, Pow2(h));
      DivModUnique(r.lo, Pow2(h), l / Pow2(h), Pow2(h - 2));
      assert Straddling(h - 2, r);
    }
  }

  lemma RegularInTree(h: nat, l: nat, r: Range)
    requires l % Pow2(h) == 0 && Regular(h, r) && FullRange(h, l).Contains(r)
    requires h > 0 ==> (Regular(h - 1, r) && FullRange(h - 1, l).Contains(r) ==> InTree(h - 1, l, r))
    requires h > 0 ==> (Regular(h - 1, r) && FullRange(h - 1, l + Pow2(h - 1)).Contains(r) ==>
                          InTree(h - 1, l + Pow2(h - 1), r))
    ensures InTree(h, l, r)
  {
    if i: nat :| i <= h && Aligned(i, r) {
      AlignedInHalf(h, l, i, r);
    } else {
      var i: nat :| i + 2 <= h && Straddling(i, r);
      StraddlingInHalf(h, l, i, r);
    }
  }

  /** The ranges of the tree are the aligned blocks in its domain and the middle halves of those with at
      least four values. */
  lemma RangesOfTree(h: nat, r: Range)
    ensures HasRange(Initialize(h), r) <==> Regular(h, r) && 0 <= r.lo && r.hi < Pow2(h)
  {
    hide Pow2, Initialize, HasRange, InTree, Regular, IsTreeAt;
    InitializeIsTree(h);
    InTreeIsHasRange(Initialize(h), h, 0, r);
    MultipleOf(0, Pow2(h));
    InTreeIsRegular(h, 0, r);
  }

  // ----- the cover of a query

  function CoverHelper(node: Child, q: Range): Range
    decreases node
  {
    if node.Absent? || !node.tdag.range.Contains(q) then NONE
    else
      var t := node.tdag;
      var leftContains := t.left.Present? && t.left.tdag.range.Contains(q);
      var rightContains := t.right.Present? && t.right.tdag.range.Contains(q);
      if t.middle.lo != -1 && t.middle.Contains(q) && !leftContains && !rightContains then t.middle
      else if leftContains then CoverHelper(t.left, q)
      else if rightContains then CoverHelper(t.right, q)
      else t.range
  }

  datatype Cover = NoCover | Found(range: Range)

  /** The cover of a query; a query outside the tree throws. */
  function SingleRangeCover(t: Tdag, q: Range): Cover {
    var c := CoverHelper(Present(t), q);
    if c.lo == -1 then NoCover else Found(c)
  }

  /** The cover in arithmetic terms. */
  ghost function CoverAt(h: nat, l: int, q: Range): Range {
    if h == 0 then FullRange(h, l)
    else
      var left, right := FullRange(h - 1, l), FullRange(h - 1, l + Pow2(h - 1));
      if left.Contains(q) then CoverAt(h - 1, l, q)
      else if right.Contains(q) then CoverAt(h - 1, l + Pow2(h - 1), q)
      else if h > 1 && MiddleAt(h, l).Contains(q) then MiddleAt(h, l)
      else FullRange(h, l)
  }

  lemma {:induction false} CoverAtIsHelper(t: Tdag, h: nat, l: int, q: Range)
    requires l >= 0 && IsTreeAt(t, h, l) && FullRange(h, l).Contains(q)
    ensures CoverHelper(Present(t), q) == CoverAt(h, l, q)
    decreases h
  {
    if h > 0 {
      if FullRange(h - 1, l).Contains(q) {
        CoverAtIsHelper(t.left.tdag, h - 1, l, q);
      } else if FullRange(h - 1, l + Pow2(h - 1)).Contains(q) {
        CoverAtIsHelper(t.right.tdag, h - 1, l + Pow2(h - 1), q);
      }
    }
  }

  lemma {:induction false} CoverAtContains(h: nat, l: int, q: Range)
    requires FullRange(h, l).Contains(q)
    ensures InTree(h, l, CoverAt(h, l, q)) && CoverAt(h, l, q).Contains(q)
    decreases h
  {
    if h > 0 {
      if FullRange(h - 1, l).Contains(q) {
        CoverAtContains(h - 1, l, q);
      } else if FullRange(h - 1, l + Pow2(h - 1)).Contains(q) {
        CoverAtContains(h - 1, l + Pow2(h - 1), q);
      }
    }
  }

  /** No range of the tree that contains the query is shorter than the cover. */
  lemma {:induction false} CoverAtIsShortest(h: nat, l: int, q: Range, r: Range)
    requires q.lo <= q.hi && FullRange(h, l).Contains(q) && InTree(h, l, r) && r.Contains(q)
    ensures CoverAt(h, l, q).Length() <= r.Length()
    decreases h
  {
    hide Pow2;
    Halves(h);
    if h > 0 {
      var half := Pow2(h - 1);
      if InTree(h - 1, l, r) {
        RangesInside(h - 1, l, r);
        CoverAtIsShortest(h - 1, l, q, r);
      } else if InTree(h - 1, l + half, r) {
        RangesInside(h - 1, l + half, r);
        CoverAtIsShortest(h - 1, l + half, q, r);
      } else {
        CoverAtIsNarrow(h, l, q);
      }
    }
  }

  /** A cover that is not the whole range is at most half as long. */
  lemma CoverAtIsNarrow(h: nat, l: int, q: Range)
    requires h > 0 && FullRange(h, l).Contains(q)
    ensures var c := CoverAt(h, l, q);
            && c.Length() <= Pow2(h)
            && (h > 1 && MiddleAt(h, l).Contains(q) ==> c.Length() <= Pow2(h - 1))
  {
    hide InTree, Pow2;
    Halves(h);
    if FullRange(h - 1, l).Contains(q) {
      CoverAtLength(h - 1, l, q);
    } else if FullRange(h - 1, l + Pow2(h - 1)).Contains(q) {
      CoverAtLength(h - 1, l + Pow2(h - 1), q);
    }
  }

  lemma CoverAtLength(h: nat, l: int, q: Range)
    requires FullRange(h, l).Contains(q)
    ensures CoverAt(h, l, q).Length() <= Pow2(h)
  {
    hide CoverAt, InTree, Pow2;
    CoverAtContains(h, l, q);
    RangesInside(h, l, CoverAt(h, l, q));
  }

  /** A non-empty query has a cover exactly when it lies in the tree. */
  lemma CoverExists(t: Tdag, h: nat, q: Range)
    requires IsTreeAt(t, h, 0) && q.lo <= q.hi
    ensures SingleRangeCover(t, q) == if 0 <= q.lo && q.hi < Pow2(h) then Found(CoverAt(h, 0, q)) else NoCover
  {
    if 0 <= q.lo && q.hi < Pow2(h) {
      CoverAtIsHelper(t, h, 0, q);
      CoverAtContains(h, 0, q);
      RangesInside(h, 0, CoverAt(h, 0, q));
    }
  }

  /** The cover of a query is a range of the tree that contains the query, and no such range is shorter. */
  lemma SingleRangeCoverIsShortest(t: Tdag, h: nat, q: Range, c: Range)
    requires IsTreeAt(t, h, 0) && q.lo <= q.hi && SingleRangeCover(t, q) == Found(c)
    ensures HasRange(t, c) && c.Contains(q)
    ensures forall r :: HasRange(t, r) && r.Contains(q) ==> c.Length() <= r.Length()
  {
    CoverExists(t, h, q);
    CoverAtContains(h, 0, q);
    InTreeIsHasRange(t, h, 0, c);
    forall r | HasRange(t, r) && r.Contains(q) ensures c.Length() <= r.Length() {
      InTreeIsHasRange(t, h, 0, r);
      CoverAtIsShortest(h, 0, q, r);
    }
  }

  /** The descent to a value lists exactly the ranges of the tree that have the value. */
  lemma DescentIsExact(t: Tdag, h: nat, v: int, r: Range)
    requires IsTreeAt(t, h, 0) && 0 <= v < Pow2(h)
    ensures r in Path(h, 0, v) <==> HasRange(t, r) && r.Has(v)
  {
    PathIsExact(h, 0, v, r);
    InTreeIsHasRange(t, h, 0, r);
  }

  // ----- the descent to a value

  /** The ranges on the way from a node down to v: each node, and its middle when that has v. */
  ghost function Path(h: nat, l: int, v: int): seq<Range> {
    if h == 0 then [FullRange(h, l)]
    else Step(h, l, v) + Path(h - 1, NextStart(h, l, v), v)
  }

  ghost function Step(h: nat, l: int, v: int): seq<Range> {
    [FullRange(h, l)] + if h > 1 && MiddleAt(h, l).Has(v) then [MiddleAt(h, l)] else []
  }

  ghost function NextStart(h: nat, l: int, v: int): int
    requires h > 0
  {
    if v < l + Pow2(h - 1) then l else l + Pow2(h - 1)
  }

  /** The path lists exactly the ranges of the tree that have v. */
  lemma {:induction false} PathIsExact(h: nat, l: int, v: int, r: Range)
    requires FullRange(h, l).Has(v)
    ensures r in Path(h, l, v) <==> InTree(h, l, r) && r.Has(v)
    decreases h
  {
    hide Pow2;
    Halves(h);
    if h > 0 {
      var half := Pow2(h - 1);
      if InTree(h - 1, l, r) { RangesInside(h - 1, l, r); }
      if InTree(h - 1, l + half, r) { RangesInside(h - 1, l + half, r); }
      PathIsExact(h - 1, NextStart(h, l, v), v, r);
    }
  }

  /** A step's ranges do not fit in the half the descent goes on with. */
  lemma StepOutside(h: nat, l: int, v: int)
    requires h > 0 && FullRange(h, l).Has(v)
    ensures FullRange(h - 1, NextStart(h, l, v)).Has(v)
    ensures forall r :: r in Step(h, l, v) ==>
              FullRange(h, l).Contains(r) && !FullRange(h - 1, NextStart(h, l, v)).Contains(r)
    ensures Distinct(Step(h, l, v))
  {
    Halves(h);
  }

  lemma {:induction false} PathInside(h: nat, l: int, v: int)
    requires FullRange(h, l).Has(v)
    ensures forall r :: r in Path(h, l, v) ==> FullRange(h, l).Contains(r)
    decreases h
  {
    Halves(h);
    if h > 0 {
      StepOutside(h, l, v);
      PathInside(h - 1, NextStart(h, l, v), v);
    }
  }

  /** The path visits no range twice. */
  lemma {:induction false} PathIsDistinct(h: nat, l: int, v: int)
    requires FullRange(h, l).Has(v)
    ensures Distinct(Path(h, l, v))
    decreases h
  {
    if h > 0 {
      StepOutside(h, l, v);
      PathInside(h - 1, NextStart(h, l, v), v);
      PathIsDistinct(h - 1, NextStart(h, l, v), v);
      DistinctConcat(Step(h, l, v), Path(h - 1, NextStart(h, l, v), v));
    }
  }

  lemma DistinctConcat(s: seq<Range>, t: seq<Range>)
    requires Distinct(s) && Distinct(t) && forall r :: r in s ==> r !in t
    ensures Distinct(s + t)
  {
    forall i, j | 0 <= i < j < |s + t| ensures (s + t)[i] != (s + t)[j] {
      if i < |s| <= j {
        assert s[i] in s && t[j - |s|] in t;
      }
    }
  }

  lemma WideRange(h: nat, l: int, v: int)
    requires FullRange(h, l).Has(v)
    ensures FullRange(h, l) != Range(v, v) <==> h > 0
  {}

  // ----- when the descent ends

  /** Halving cuts towards zero. */
  function Half(d: int): int { if d >= 0 then d / 2 else -((-d) / 2) }

  /** The range after one turn of the loop, whatever range and value are. */
  function NextRange(r: Range, v: int): Range {
    var middle := r.lo + Half(r.hi - r.lo);
    if v <= middle then Range(r.lo, middle) else Range(middle + 1, r.hi)
  }

  function Turns(r: Range, v: int, k: nat): Range
    decreases k
  {
    if k == 0 then r else Turns(NextRange(r, v), v, k - 1)
  }

  ghost predicate Ends(r: Range, v: int) { exists k: nat :: Turns(r, v, k) == Range(v, v) }

  lemma EndsAfterTurn(r: Range, v: int)
    ensures Ends(NextRange(r, v), v) ==> Ends(r, v)
  {
    if k: nat :| Turns(NextRange(r, v), v, k) == Range(v, v) { assert Turns(r, v, k + 1) == Range(v, v); }
  }

  /** A value in the range, or just behind it, is reached. */
  lemma {:induction false} EndsInside(r: Range, v: int)
    requires r.lo <= r.hi && r.lo <= v <= r.hi + 1
    ensures Ends(r, v)
    decreases r.hi - r.lo
  {
    if r == Range(v, v) {
      assert Turns(r, v, 0) == Range(v, v);
    } else if r.lo < r.hi {
      EndsInside(NextRange(r, v), v);
      EndsAfterTurn(r, v);
    } else {
      assert NextRange(r, v) == Range(v, r.hi);
      assert Turns(r, v, 2) == Turns(Range(v, r.hi), v, 1) == Turns(Range(v, v), v, 0) == Range(v, v);
    }
  }

  /** The loop never gets to a value below its range. */
  lemma {:induction false} NeverBelow(r: Range, v: int, k: nat)
    requires v < r.lo <= r.hi
    ensures Turns(r, v, k) != Range(v, v)
    decreases k
  {
    if k > 0 { NeverBelow(NextRange(r, v), v, k - 1); }
  }

  /** Nor to one more than one place behind it: the range shrinks to nothing and stays so. */
  lemma {:induction false} NeverBehind(r: Range, v: int, k: nat)
    requires r.lo <= r.hi + 2 <= v
    ensures Turns(r, v, k) != Range(v, v)
    decreases k
  {
    if k > 0 { NeverBehind(NextRange(r, v), v, k - 1); }
  }

  /** The loop of a descent ends for the values of the tree and for the one just behind the last;
      for all others it runs forever. */
  lemma DescentEnds(h: nat, v: int)
    ensures Ends(FullRange(h, 0), v) <==> 0 <= v <= Pow2(h)
  {
    var r := FullRange(h, 0);
    assert r == Range(0, Pow2(h) - 1);
    if 0 <= v <= Pow2(h) {
      EndsInside(r, v);
    } else if k: nat :| Turns(r, v, k) == Range(v, v) {
      if v < 0 { NeverBelow(r, v, k); } else { NeverBehind(r, v, k); }
    }
  }

  // ----- the value just behind the last

  /** The ranges on the way to the value behind a tree of 2^h values: the nodes that end with the last
      value, an empty range and the value alone. */
  ghost function BehindRange(h: nat, j: int): Range {
    var behind := Pow2(h);
    if j >= 0 then FullRange(j, behind - Pow2(j))
    else if j == -1 then Range(behind, behind - 1)
    else Range(behind, behind)
  }

  ghost function BehindFrom(h: nat, j: int): seq<Range>
    requires j >= -2
    decreases j + 2
  {
    [BehindRange(h, j)] + if j == -2 then [] else BehindFrom(h, j - 1)
  }

  /** What the descent to a value lists. */
  ghost function Descent(h: nat, v: int): seq<Range>
    requires 0 <= v <= Pow2(h)
  {
    if v < Pow2(h) then Path(h, 0, v) else BehindFrom(h, h)
  }

  lemma {:induction false} BehindHas(h: nat, j: int, r: Range)
    requires -2 <= j <= h
    ensures r in BehindFrom(h, j) <==> exists i :: -2 <= i <= j && r == BehindRange(h, i)
    decreases j + 2
  {
    if j > -2 {
      BehindHas(h, j - 1, r);
      if i :| -2 <= i <= j && r == BehindRange(h, i) { assert i == j || r in BehindFrom(h, j - 1); }
      if r in BehindFrom(h, j) && r != BehindRange(h, j) {
        var i :| -2 <= i <= j - 1 && r == BehindRange(h, i);
        assert -2 <= i <= j;
      }
    }
  }

  /** A range of a subtree at the end is a node of it, if it ends with the last value. */
  lemma {:induction false} EndingRanges(h: nat, j: nat, r: Range)
    requires j <= h && Pow2(j) <= Pow2(h) && InTree(j, Pow2(h) - Pow2(j), r) && r.hi == Pow2(h) - 1
    ensures exists i :: 0 <= i <= j && r == BehindRange(h, i)
    decreases j
  {
    hide Pow2;
    Halves(j);
    var l := Pow2(h) - Pow2(j);
    if r == FullRange(j, l) {
      assert r == BehindRange(h, j);
    } else if j > 0 && InTree(j - 1, l + Pow2(j - 1), r) {
      EndingRanges(h, j - 1, r);
      var i :| 0 <= i <= j - 1 && r == BehindRange(h, i);
      assert 0 <= i <= j && r == BehindRange(h, i);
    } else if j > 0 && InTree(j - 1, l, r) {
      RangesInside(j - 1, l, r);
    }
  }

  lemma {:induction false} BehindInTree(h: nat, j: nat, i: nat)
    requires i <= j <= h && Pow2(j) <= Pow2(h)
    ensures InTree(j, Pow2(h) - Pow2(j), BehindRange(h, i))
    decreases j
  {
    if i < j { BehindInTree(h, j - 1, i); }
  }

  /** The value just behind the last is put under the ranges of the tree that end with the last value,
      none of which has it, and under two ranges that are not in the tree. */
  lemma BehindIsExact(t: Tdag, h: nat, r: Range)
    requires IsTreeAt(t, h, 0)
    ensures HasRange(t, r) ==> (r in Descent(h, Pow2(h)) <==> r.hi == Pow2(h) - 1) && !r.Has(Pow2(h))
    ensures r in Descent(h, Pow2(h)) ==>
              HasRange(t, r) || r == Range(Pow2(h), Pow2(h) - 1) || r == Range(Pow2(h), Pow2(h))
  {
    hide Pow2, HasRange;
    InTreeIsHasRange(t, h, 0, r);
    BehindHas(h, h, r);
    if HasRange(t, r) {
      RangesInside(h, 0, r);
      if r.hi == Pow2(h) - 1 { EndingRanges(h, h, r); }
    }
    if r in Descent(h, Pow2(h)) {
      var i :| -2 <= i <= h && r == BehindRange(h, i);
      if i >= 0 { BehindInTree(h, h, i); }
    }
  }

  /** The ranges a value can be put under, and those that a given value is put under. */
  ghost predicate ListedRange(h: nat, r: Range) {
    HasRange(Initialize(h), r) || r == Range(Pow2(h), Pow2(h) - 1) || r == Range(Pow2(h), Pow2(h))
  }

  predicate PutUnder(h: nat, v: int, r: Range) {
    if v == Pow2(h) then r.hi == Pow2(h) - 1 || r == Range(Pow2(h), Pow2(h)) else r.Has(v)
  }

  lemma ListedExactly(h: nat, v: int, r: Range)
    requires 0 <= v <= Pow2(h)
    ensures r in Descent(h, v) <==> ListedRange(h, r) && PutUnder(h, v, r)
  {
    hide HasRange, Path, Initialize;
    InitializeIsTree(h);
    if v < Pow2(h) {
      DescentIsExact(Initialize(h), h, v, r);
    } else {
      BehindIsExact(Initialize(h), h, r);
      BehindHas(h, h, r);
      assert BehindRange(h, -1) == Range(v, v - 1) && BehindRange(h, -2) == Range(v, v);
    }
  }

  lemma {:induction false} BehindRises(h: nat, j: int)
    requires -2 <= j <= h
    ensures Distinct(BehindFrom(h, j))
    ensures forall r :: r in BehindFrom(h, j) ==> r == BehindRange(h, j) || StartsBefore(BehindRange(h, j), r)
    decreases j + 2
  {
    if j > -2 {
      BehindRises(h, j - 1);
      assert StartsBefore(BehindRange(h, j), BehindRange(h, j - 1));
      DistinctConcat([BehindRange(h, j)], BehindFrom(h, j - 1));
    }
  }

  ghost predicate StartsBefore(q: Range, r: Range) { q.lo < r.lo || (q.lo == r.lo && q.hi < r.hi) }

  /** The descent lists no range twice. */
  lemma DescentIsDistinct(h: nat, v: int)
    requires 0 <= v <= Pow2(h)
    ensures Distinct(Descent(h, v))
  {
    if v < Pow2(h) { PathIsDistinct(h, 0, v); } else { BehindRises(h, h); }
  }

  // ----- the loop

  /** Adds a range unless it is there already. */
  function WithNew(s: seq<Range>, r: Range): seq<Range> { if r in s then s else s + [r] }

  /** The list after one turn of the loop. */
  ghost function AfterTurn(r: Range, v: int, ranges: seq<Range>): seq<Range> {
    var first := WithNew(ranges, r);
    if r.hi - r.lo > 1 && Middle(r).Has(v) then WithNew(first, Middle(r)) else first
  }

  /** Where the loop is: at a node with the value, or behind. */
  datatype Place = At(height: nat, start: int) | Behind(level: int) {
    ghost predicate Valid(h: nat, v: int) {
      match this
      case At(j, l) => l >= 0 && FullRange(j, l).Has(v)
      case Behind(j) => -2 <= j <= h && v == Pow2(h)
    }
    ghost function Here(h: nat): Range {
      match this
      case At(j, l) => FullRange(j, l)
      case Behind(j) => BehindRange(h, j)
    }
    ghost function Todo(h: nat, v: int): seq<Range>
      requires Valid(h, v)
    {
      match this
      case At(j, l) => Path(j, l, v)
      case Behind(j) => BehindFrom(h, j)
    }
    ghost function Next(v: int): Place {
      match this
      case At(j, l) => if j > 0 then At(j - 1, NextStart(j, l, v)) else this
      case Behind(j) => Behind(j - 1)
    }
    ghost function Left(): int { match this case At(j, _) => j case Behind(j) => j + 2 }

    /** All ranges of the list are wider than here, or before it. */
    ghost predicate Fresh(h: nat, ranges: seq<Range>) {
      match this
      case At(_, _) => forall r :: r in ranges ==> !Here(h).Contains(r)
      case Behind(_) => forall r :: r in ranges ==> StartsBefore(r, Here(h))
    }
  }

  /** One turn goes on to the next place and lists what is on the way. */
  lemma TurnKeeps(p: Place, h: nat, v: int, ranges: seq<Range>)
    requires p.Valid(h, v) && p.Fresh(h, ranges) && p.Here(h) != Range(v, v)
    ensures p.Next(v).Valid(h, v) && p.Next(v).Here(h) == NextRange(p.Here(h), v)
    ensures 0 <= p.Next(v).Left() < p.Left()
    ensures var ranges' := AfterTurn(p.Here(h), v, ranges);
            p.Next(v).Fresh(h, ranges') && ranges' + p.Next(v).Todo(h, v) == ranges + p.Todo(h, v)
  {
    hide Path, BehindFrom;
    match p
    case At(j, l) => TurnAt(j, l, h, v, ranges);
    case Behind(j) => TurnBehind(j, h, v, ranges);
  }

  /** One turn at a node with more than one value. */
  lemma StepTaken(j: nat, l: int, v: int, ranges: seq<Range>)
    requires j > 0 && l >= 0 && FullRange(j, l).Has(v) && forall r :: r in ranges ==> !FullRange(j, l).Contains(r)
    ensures NextRange(FullRange(j, l), v) == FullRange(j - 1, NextStart(j, l, v)) && NextStart(j, l, v) >= l
    ensures AfterTurn(FullRange(j, l), v, ranges) == ranges + Step(j, l, v)
    ensures forall r :: r in ranges ==> !FullRange(j - 1, NextStart(j, l, v)).Contains(r)
  {
    hide Middle, TreeAt;
    Shape(j, l);
    StepOutside(j, l, v);
    if j > 1 { assert FullRange(j, l).Contains(MiddleAt(j, l)); }
  }

  lemma TurnAt(j: nat, l: int, h: nat, v: int, ranges: seq<Range>)
    requires var p := At(j, l); p.Valid(h, v) && p.Fresh(h, ranges) && p.Here(h) != Range(v, v)
    ensures var p, ranges' := At(j, l), AfterTurn(FullRange(j, l), v, ranges);
            && p.Next(v).Valid(h, v) && p.Next(v).Here(h) == NextRange(p.Here(h), v) && j > 0
            && p.Next(v).Fresh(h, ranges') && ranges' + p.Next(v).Todo(h, v) == ranges + p.Todo(h, v)
  {
    hide Pow2, Path, AfterTurn, NextRange, Step, NextStart, FullRange;
    WideRange(j, l, v);
    StepOutside(j, l, v);
    PathStep(j, l, v);
    StepTaken(j, l, v, ranges);
    var next := At(j, l).Next(v);
    assert (ranges + Step(j, l, v)) + next.Todo(h, v) == ranges + (Step(j, l, v) + next.Todo(h, v));
  }

  lemma BehindStep(j: int, h: nat)
    requires -1 <= j <= h
    ensures BehindRange(h, j - 1) == NextRange(BehindRange(h, j), Pow2(h))
    ensures BehindFrom(h, j) == [BehindRange(h, j)] + BehindFrom(h, j - 1)
    ensures StartsBefore(BehindRange(h, j), BehindRange(h, j - 1))
  {
    if j > 0 { assert Pow2(j) == 2 * Pow2(j - 1); }
  }

  lemma BehindPushed(j: int, h: nat, ranges: seq<Range>)
    requires -1 <= j <= h && forall r :: r in ranges ==> StartsBefore(r, BehindRange(h, j))
    ensures AfterTurn(BehindRange(h, j), Pow2(h), ranges) == ranges + [BehindRange(h, j)]
  {
    if 0 <= j < h { Pow2Grows(j, h); }
    if j >= 0 { Shape(j, Pow2(h) - Pow2(j)); }
  }

  lemma TurnBehind(j: int, h: nat, v: int, ranges: seq<Range>)
    requires var p := Behind(j); p.Valid(h, v) && p.Fresh(h, ranges) && p.Here(h) != Range(v, v)
    ensures var p, ranges' := Behind(j), AfterTurn(BehindRange(h, j), v, ranges);
            && p.Next(v).Valid(h, v) && p.Next(v).Here(h) == NextRange(p.Here(h), v)
            && p.Next(v).Fresh(h, ranges') && ranges' + p.Next(v).Todo(h, v) == ranges + p.Todo(h, v)
  {
    hide Pow2, Middle, NextRange, AfterTurn, BehindFrom;
    var here := BehindRange(h, j);
    BehindStep(j, h);
    assert AfterTurn(here, v, ranges) == ranges + [here] by { BehindPushed(j, h, ranges); }
    assert (ranges + [here]) + BehindFrom(h, j - 1) == ranges + BehindFrom(h, j);
  }

  /** At the value alone there is nothing else to do. */
  lemma LastPlace(p: Place, h: nat, v: int, ranges: seq<Range>)
    requires p.Valid(h, v) && p.Fresh(h, ranges) && p.Here(h) == Range(v, v)
    ensures WithNew(ranges, Range(v, v)) == ranges + p.Todo(h, v)
  {
    match p
    case At(j, l) => WideRange(j, l, v);
    case Behind(j) => {}
  }

  ghost function StartPlace(h: nat, v: int): Place { if v < Pow2(h) then At(h, 0) else Behind(h) }

  lemma StartOfDescent(h: nat, v: int)
    requires 0 <= v <= Pow2(h)
    ensures var p := StartPlace(h, v); p.Valid(h, v) && p.Here(h) == FullRange(h, 0) && p.Todo(h, v) == Descent(h, v)
  {}

  /** The descent: halves the range until it is the value alone, collecting nodes and middles. */
  method DescendTree(h: nat, v: int) returns (ranges: seq<Range>)
    requires 0 <= v <= Pow2(h)
    ensures ranges == Descent(h, v)
  {
    hide Descent, StartPlace, Place.Valid, Place.Here, Place.Todo, Place.Next, Place.Fresh, FullRange, Pow2, Middle;
    hide NextRange, Place.Left;
    ranges := [];
    var range := FullRange(h, 0);
    ghost var p := StartPlace(h, v);
    StartOfDescent(h, v);
    NothingListed(p, h);
    while range.lo != v || range.hi != v
      invariant p.Valid(h, v) && range == p.Here(h) && p.Fresh(h, ranges)
      invariant ranges + p.Todo(h, v) == Descent(h, v)
      decreases p.Left()
    {
      TurnKeeps(p, h, v, ranges);
      p := p.Next(v);
      ranges := WithNew(ranges, range);
      var middle := Middle(range);
      if middle.Has(v) && range.hi - range.lo > 1 { ranges := WithNew(ranges, middle); }
      range := NextRange(range, v);
    }
    LastPlace(p, h, v, ranges);
    ranges := WithNew(ranges, range);
  }

  lemma NothingListed(p: Place, h: nat)
    ensures p.Fresh(h, [])
  {}

  lemma PathStep(h: nat, l: int, v: int)
    ensures h > 0 ==> Path(h, l, v) == Step(h, l, v) + Path(h - 1, NextStart(h, l, v), v)
  {}
}
