/** The single covering cube of a query, found by arithmetic on its corners alone. */
module OctreeCover {
  import opened Arith
  import opened Grid
  import opened Octree

  function Clamp(v: int, low: int, high: int): int {
    var capped := if v < high then v else high;
    if low > capped then low else capped
  }

  /** A side clamped to the domain; an empty one that does not start at its end is widened by one. */
  function AdjustedEnd(s: int, e: int, domain: nat): int {
    var s', e' := Clamp(s, 0, domain), Clamp(e, 0, domain);
    if e' == s' && e' < domain then e' + 1 else e'
  }

  function Adjusted(query: Rect, domain: nat): Rect {
    Rect(Point(Clamp(query.start.x, 0, domain), Clamp(query.start.y, 0, domain), Clamp(query.start.z, 0, domain)),
         Point(AdjustedEnd(query.start.x, query.end.x, domain), AdjustedEnd(query.start.y, query.end.y, domain),
               AdjustedEnd(query.start.z, query.end.z, domain)))
  }

  function LongestSide(r: Rect): (len: nat)
    ensures len >= 1
  {
    Max(1, Max(r.end.x - r.start.x, Max(r.end.y - r.start.y, r.end.z - r.start.z)))
  }

  /** A side of an adjusted query. */
  predicate IsSide(domain: nat, s: int, e: int) {
    0 <= s <= e <= domain && (s == e ==> s == domain)
  }

  lemma AdjustedSides(query: Rect, domain: nat)
    requires query.Ordered() && domain > 0
    ensures var a := Adjusted(query, domain);
            && IsSide(domain, a.start.x, a.end.x)
            && IsSide(domain, a.start.y, a.end.y)
            && IsSide(domain, a.start.z, a.end.z)
            && LongestSide(a) <= domain
  {}

  /** A side asks for v: it has v or, where no position of the domain is on the side, v is its start. */
  ghost predicate SideAsks(s: int, e: int, domain: nat, v: int) {
    0 <= v < domain && (s <= v < e || (Max(s, 0) >= Min(e, domain) && v == Max(s, 0)))
  }

  /** The adjusted query has exactly the points of the domain that all three sides ask for. */
  lemma AdjustedExact(query: Rect, domain: nat, p: Point)
    requires query.Ordered() && domain > 0
    ensures Adjusted(query, domain).ContainsPoint(p) <==> Asked(query, domain, p)
  {}

  ghost predicate Asked(query: Rect, domain: nat, p: Point) {
    && SideAsks(query.start.x, query.end.x, domain, p.x)
    && SideAsks(query.start.y, query.end.y, domain, p.y)
    && SideAsks(query.start.z, query.end.z, domain, p.z)
  }

  // ----- one axis

  function LeftStart(s: nat, offset: nat): int
    requires offset > 0
  {
    FloorTo(s, offset)
  }

  function RightStart(e: nat, offset: nat, width: nat): int
    requires offset > 0 && e > 0
  {
    CeilTo(e - 1, offset) - width
  }

  /** A cube of this width starting at a lies in the domain and reaches over the side. */
  predicate Spans(domain: nat, s: int, e: int, width: nat, a: int) {
    0 <= a && a + width <= domain && a <= s && e <= a + width
  }

  /** Some lattice start spans the side. */
  ghost predicate Fits(domain: nat, s: int, e: int, width: nat)
    requires width > 0
  {
    exists a :: OnAxis(domain, width, a) && Spans(domain, s, e, width, a)
  }

  /** One of the two candidates of the search does. */
  predicate Candidate(domain: nat, s: int, e: int, width: nat)
    requires IsSide(domain, s, e) && domain > 0 && width >= 2
  {
    Spans(domain, s, e, width, LeftStart(s, width / 2)) || Spans(domain, s, e, width, RightStart(e, width / 2, width))
  }

  /** The rounding of end - 1 loses a side whose last position is the first of the last half cube. */
  predicate Misrounds(domain: nat, s: int, e: int, width: nat) {
    width < domain && s >= domain - width / 2 && e - 1 == domain - width / 2
  }

  lemma HalfWidth(height: nat, j: nat)
    requires 1 <= j <= height
    ensures var w, domain := Pow2(j), Pow2(height);
            && w >= 2 && w / 2 == Pow2(j - 1) == Step(w) && w == 2 * (w / 2) && w <= domain
            && domain % (w / 2) == 0 && (domain - w) % (w / 2) == 0 && w % (w / 2) == 0
  {
    Pow2Half(j);
    if j < height { Pow2Grows(j, height); }
    Pow2Divides(j - 1, height);
    Pow2Divides(j - 1, j);
    SumOfMultiples(Pow2(height), Pow2(j), Pow2(j - 1));
  }

  lemma LeftOnAxis(height: nat, j: nat, s: int, e: int)
    requires 1 <= j <= height && IsSide(Pow2(height), s, e)
    ensures var w, domain := Pow2(j), Pow2(height);
            && w >= 2
            && (Spans(domain, s, e, w, LeftStart(s, w / 2)) ==> OnAxis(domain, w, LeftStart(s, w / 2)))
            && (Spans(domain, s, e, w, RightStart(e, w / 2, w)) ==> OnAxis(domain, w, RightStart(e, w / 2, w)))
  {
    HalfWidth(height, j);
    var w := Pow2(j);
    var c := CeilTo(e - 1, w / 2);
    if c >= w { SumOfMultiples(c, w, w / 2); }
  }

  /** The candidates miss a lattice cube exactly when the side is misrounded. */
  lemma CandidateIffFits(height: nat, j: nat, s: int, e: int)
    requires 1 <= j < height && IsSide(Pow2(height), s, e)
    ensures var w, domain := Pow2(j), Pow2(height);
            w >= 2 && (Candidate(domain, s, e, w) <==> Fits(domain, s, e, w) && !Misrounds(domain, s, e, w))
  {
    HalfWidth(height, j);
    Pow2Grows(j, height);
    LeftOnAxis(height, j, s, e);
    var w, domain := Pow2(j), Pow2(height);
    var h := w / 2;
    if Misrounds(domain, s, e, w) {
      MisroundedHasNoCandidate(domain, s, e, h);
    } else if Fits(domain, s, e, w) {
      var a :| OnAxis(domain, w, a) && Spans(domain, s, e, w, a);
      FittingHasCandidate(domain, s, e, h, a);
    }
  }

  lemma MisroundedHasNoCandidate(domain: nat, s: int, e: int, h: nat)
    requires h > 0 && domain % h == 0 && domain > 2 * h && IsSide(domain, s, e)
    requires Misrounds(domain, s, e, 2 * h)
    ensures !Candidate(domain, s, e, 2 * h)
  {
    MultipleOf(1, h);
    SumOfMultiples(domain, h, h);
    var floor, ceil := FloorTo(s, h), CeilTo(e - 1, h);
    if floor < domain - h { NoMultipleBetween(floor, domain - h, h); }
    if ceil > domain - h { NoMultipleBetween(domain - h, ceil, h); }
  }

  lemma FittingHasCandidate(domain: nat, s: int, e: int, h: nat, a: int)
    requires h > 0 && domain % h == 0 && (domain - 2 * h) % h == 0 && domain > 2 * h && IsSide(domain, s, e)
    requires 0 <= a && a % h == 0 && Spans(domain, s, e, 2 * h, a) && !Misrounds(domain, s, e, 2 * h)
    ensures Candidate(domain, s, e, 2 * h)
  {
    var floor, ceil := FloorTo(s, h), CeilTo(e - 1, h);
    if a > floor { NoMultipleBetween(floor, a, h); }
    if floor <= domain - 2 * h {
      assert Spans(domain, s, e, 2 * h, floor);
    } else {
      NoMultipleBetween(domain - 2 * h, floor, h);
      if ceil < domain { NoMultipleBetween(ceil, domain, h); }
      if ceil > domain { NoMultipleBetween(domain, ceil, h); }
      assert ceil == domain;
      assert Spans(domain, s, e, 2 * h, ceil - 2 * h);
    }
  }

  // ----- all three axes

  ghost predicate Sides(domain: nat, a: Rect) {
    && IsSide(domain, a.start.x, a.end.x) && IsSide(domain, a.start.y, a.end.y) && IsSide(domain, a.start.z, a.end.z)
  }

  /** Some lattice cube of level j contains a. */
  ghost predicate Covered(height: nat, a: Rect, j: nat) {
    exists c :: IsCell(height, c, j) && c.ContainsRect(a)
  }

  predicate AllCandidates(domain: nat, a: Rect, width: nat)
    requires Sides(domain, a) && domain > 0 && width >= 2
  {
    && Candidate(domain, a.start.x, a.end.x, width)
    && Candidate(domain, a.start.y, a.end.y, width)
    && Candidate(domain, a.start.z, a.end.z, width)
  }

  predicate SomeMisrounded(domain: nat, a: Rect, width: nat) {
    || Misrounds(domain, a.start.x, a.end.x, width)
    || Misrounds(domain, a.start.y, a.end.y, width)
    || Misrounds(domain, a.start.z, a.end.z, width)
  }

  lemma CoveredByAxis(height: nat, a: Rect, j: nat)
    requires j <= height
    ensures var w, domain := Pow2(j), Pow2(height);
            Covered(height, a, j) <==>
            Fits(domain, a.start.x, a.end.x, w) && Fits(domain, a.start.y, a.end.y, w)
                && Fits(domain, a.start.z, a.end.z, w)
  {
    var w, domain := Pow2(j), Pow2(height);
    if Covered(height, a, j) {
      var c :| IsCell(height, c, j) && c.ContainsRect(a);
      assert Spans(domain, a.start.x, a.end.x, w, c.start.x);
      assert Spans(domain, a.start.y, a.end.y, w, c.start.y);
      assert Spans(domain, a.start.z, a.end.z, w, c.start.z);
    }
    if Fits(domain, a.start.x, a.end.x, w) && Fits(domain, a.start.y, a.end.y, w)
        && Fits(domain, a.start.z, a.end.z, w) {
      var x :| OnAxis(domain, w, x) && Spans(domain, a.start.x, a.end.x, w, x);
      var y :| OnAxis(domain, w, y) && Spans(domain, a.start.y, a.end.y, w, y);
      var z :| OnAxis(domain, w, z) && Spans(domain, a.start.z, a.end.z, w, z);
      assert IsCell(height, Cube(Point(x, y, z), w), j);
    }
  }

  /** Below the top level the search succeeds at a level exactly when a lattice cube of that
      level contains the query and no side is misrounded. */
  lemma CandidatesIffCovered(height: nat, a: Rect, j: nat)
    requires 1 <= j < height && Sides(Pow2(height), a)
    ensures var w, domain := Pow2(j), Pow2(height);
            w >= 2 && (AllCandidates(domain, a, w) <==> Covered(height, a, j) && !SomeMisrounded(domain, a, w))
  {
    CandidateIffFits(height, j, a.start.x, a.end.x);
    CandidateIffFits(height, j, a.start.y, a.end.y);
    CandidateIffFits(height, j, a.start.z, a.end.z);
    CoveredByAxis(height, a, j);
  }

  // ----- the level the search stops at, and the least possible level

  function CoverLevelFrom(height: nat, a: Rect, j: nat): nat
    requires Sides(Pow2(height), a)
    decreases height - j
  {
    if j >= height then height
    else if j == 0 then 0
    else
      HalfWidth(height, j);
      if AllCandidates(Pow2(height), a, Pow2(j)) then j else CoverLevelFrom(height, a, j + 1)
  }

  function CoverLevel(height: nat, a: Rect): nat
    requires Sides(Pow2(height), a)
  {
    CoverLevelFrom(height, a, LevelFor(LongestSide(a), 0))
  }

  ghost function LeastLevelFrom(height: nat, a: Rect, j: nat): nat
    decreases height - j
  {
    if j >= height then height
    else if Covered(height, a, j) then j
    else LeastLevelFrom(height, a, j + 1)
  }

  /** The least level with a lattice cube that contains a. */
  ghost function LeastLevel(height: nat, a: Rect): nat { LeastLevelFrom(height, a, 0) }

  lemma {:induction false} LeastLevelFromCovers(height: nat, a: Rect, j: nat)
    requires j <= height && Root(height).ContainsRect(a)
    ensures var r := LeastLevelFrom(height, a, j);
            j <= r <= height && Covered(height, a, r) && (forall i :: j <= i < r ==> !Covered(height, a, i))
    decreases height - j
  {
    if j == height {
      RootInLattice(height);
    } else if !Covered(height, a, j) {
      LeastLevelFromCovers(height, a, j + 1);
    }
  }

  lemma CoveredAbove(height: nat, a: Rect, j: nat)
    requires j < height && Covered(height, a, j)
    ensures Covered(height, a, j + 1)
  {
    var c :| IsCell(height, c, j) && c.ContainsRect(a);
    var parent := ParentInLattice(height, c, j);
    assert parent.ContainsRect(a);
  }

  /** A level too narrow for the longest side covers nothing. */
  lemma NarrowCoversNothing(height: nat, a: Rect, j: nat)
    requires Pow2(j) < LongestSide(a)
    ensures !Covered(height, a, j)
  {}

  lemma LeastLevelStart(height: nat, a: Rect)
    requires Root(height).ContainsRect(a) && LongestSide(a) <= Pow2(height)
    ensures LevelFor(LongestSide(a), 0) <= LeastLevel(height, a) <= height
  {
    var first := LevelFor(LongestSide(a), 0);
    LevelForIsLeast(LongestSide(a), 0);
    LeastLevelFromCovers(height, a, 0);
    if LeastLevel(height, a) < first { NarrowCoversNothing(height, a, LeastLevel(height, a)); }
  }

  /** Levels that cover nothing are skipped. */
  lemma {:induction false} CoverLevelSkips(height: nat, a: Rect, j: nat, least: nat)
    requires Sides(Pow2(height), a) && 0 < j <= least <= height
    requires forall i :: j <= i < least ==> !Covered(height, a, i)
    ensures CoverLevelFrom(height, a, j) == CoverLevelFrom(height, a, least)
    decreases least - j
  {
    if j < least {
      CandidatesIffCovered(height, a, j);
      CoverLevelSkips(height, a, j + 1, least);
    }
  }

  /** A side is misrounded at one level only. */
  lemma MisroundsOnce(height: nat, s: int, e: int, i: nat, j: nat)
    requires i < j && Misrounds(Pow2(height), s, e, Pow2(i))
    ensures !Misrounds(Pow2(height), s, e, Pow2(j))
  {
    Pow2Grows(i, j);
    if i > 0 { Pow2Half(i); }
    Pow2Half(j);
  }

  /** The side is misrounded at no level from j on. */
  ghost predicate Safe(height: nat, s: int, e: int, j: nat) {
    forall i: nat {:trigger Pow2(i)} :: i >= j ==> !Misrounds(Pow2(height), s, e, Pow2(i))
  }

  /** A side of more than one position is never misrounded; any other at no second level. */
  lemma SafeSides(height: nat, s: int, e: int, j: nat)
    ensures e - s >= 2 ==> Safe(height, s, e, 0) && Safe(height, s, e, j)
    ensures Misrounds(Pow2(height), s, e, Pow2(j)) ==> Safe(height, s, e, j + 1)
  {
    if Misrounds(Pow2(height), s, e, Pow2(j)) {
      forall i: nat {:trigger Pow2(i)} | i >= j + 1 ensures !Misrounds(Pow2(height), s, e, Pow2(i)) {
        MisroundsOnce(height, s, e, j, i);
      }
    }
  }

  /** The axes in spent have sides that are safe from level j on. */
  ghost predicate AxesSafe(height: nat, a: Rect, j: nat, spent: set<nat>) {
    && spent <= {0, 1, 2}
    && (0 in spent ==> Safe(height, a.start.x, a.end.x, j))
    && (1 in spent ==> Safe(height, a.start.y, a.end.y, j))
    && (2 in spent ==> Safe(height, a.start.z, a.end.z, j))
  }

  /** From a covered level on, each level the search fails at uses up one of the sides left. */
  lemma {:induction false} CoverLevelNear(height: nat, a: Rect, j: nat, spent: set<nat>)
    requires Sides(Pow2(height), a) && 0 < j <= height && Covered(height, a, j) && AxesSafe(height, a, j, spent)
    ensures j <= CoverLevelFrom(height, a, j) <= j + 3 - |spent|
    decreases height - j
  {
    SubsetOfThree(spent);
    if j < height && !AllCandidatesAt(height, a, j) {
      CandidatesIffCovered(height, a, j);
      CoveredAbove(height, a, j);
      var lost := LostAxis(height, a, j, spent);
      CoverLevelNear(height, a, j + 1, spent + {lost});
    }
  }

  /** The axis that is misrounded at level j was not used up before and is safe from then on. */
  lemma LostAxis(height: nat, a: Rect, j: nat, spent: set<nat>) returns (lost: nat)
    requires AxesSafe(height, a, j, spent) && SomeMisrounded(Pow2(height), a, Pow2(j))
    ensures lost !in spent && AxesSafe(height, a, j + 1, spent + {lost})
  {
    var w := Pow2(j);
    lost := if Misrounds(Pow2(height), a.start.x, a.end.x, w) then 0
            else if Misrounds(Pow2(height), a.start.y, a.end.y, w) then 1 else 2;
    SafeSides(height, a.start.x, a.end.x, j);
    SafeSides(height, a.start.y, a.end.y, j);
    SafeSides(height, a.start.z, a.end.z, j);
  }

  /** An axis whose side has more than one position. */
  lemma LongAxis(height: nat, a: Rect, j: nat) returns (axis: nat)
    requires LongestSide(a) >= 2
    ensures AxesSafe(height, a, j, {axis})
  {
    axis := if a.end.x - a.start.x >= 2 then 0 else if a.end.y - a.start.y >= 2 then 1 else 2;
    SafeSides(height, a.start.x, a.end.x, j);
    SafeSides(height, a.start.y, a.end.y, j);
    SafeSides(height, a.start.z, a.end.z, j);
  }

  lemma SubsetOfThree(s: set<nat>)
    requires s <= {0, 1, 2}
    ensures |s| <= 3
  {
    assert {0, 1, 2} == s + ({0, 1, 2} - s);
  }

  predicate AllCandidatesAt(height: nat, a: Rect, j: nat)
    requires Sides(Pow2(height), a) && 1 <= j < height
  {
    HalfWidth(height, j);
    AllCandidates(Pow2(height), a, Pow2(j))
  }

  /** Unit sides are covered by a unit cube. */
  lemma UnitCovered(height: nat, a: Rect)
    requires Sides(Pow2(height), a) && LongestSide(a) == 1
    ensures Covered(height, a, 0)
  {
    hide IsCell, UnitCube, LongestSide, Sides, Pow2;
    UnitCubeIsCell(height, a);
    assert IsCell(height, UnitCube(height, a), 0) && UnitCube(height, a).ContainsRect(a);
  }

  lemma UnitCubeIsCell(height: nat, a: Rect)
    requires Sides(Pow2(height), a) && LongestSide(a) == 1
    ensures IsCell(height, UnitCube(height, a), 0) && UnitCube(height, a).ContainsRect(a)
  {
    hide Pow2;
    Pow2Half(0);
    UnitOnAxis(Pow2(height), a.start.x, a.end.x);
    UnitOnAxis(Pow2(height), a.start.y, a.end.y);
    UnitOnAxis(Pow2(height), a.start.z, a.end.z);
  }

  lemma UnitOnAxis(domain: nat, s: int, e: int)
    requires IsSide(domain, s, e) && e - s <= 1 && domain > 0
    ensures OnAxis(domain, 1, Clamp(s, 0, domain - 1)) && Clamp(s, 0, domain - 1) <= s
    ensures e <= Clamp(s, 0, domain - 1) + 1
  {}

  function UnitCube(height: nat, a: Rect): Rect {
    var last := Pow2(height) - 1;
    Cube(Point(Clamp(a.start.x, 0, last), Clamp(a.start.y, 0, last), Clamp(a.start.z, 0, last)), 1)
  }

  /** The search never stops below the least level that contains the query, and stops there
      exactly when no side is misrounded at that level; it is never more than two levels too high. */
  lemma CoverLevelIsLeast(height: nat, a: Rect)
    requires Sides(Pow2(height), a) && LongestSide(a) <= Pow2(height)
    ensures var least := LeastLevel(height, a);
            && least <= CoverLevel(height, a) <= least + 2
            && (CoverLevel(height, a) == least <==> !SomeMisrounded(Pow2(height), a, Pow2(least)))
  {
    var first, least := LevelFor(LongestSide(a), 0), LeastLevel(height, a);
    LevelForIsLeast(LongestSide(a), 0);
    LeastLevelStart(height, a);
    LeastLevelFromCovers(height, a, 0);
    if first == 0 {
      UnitCovered(height, a);
    } else {
      CoverLevelSkips(height, a, first, least);
      var axis := LongAxis(height, a, least);
      CoverLevelNear(height, a, least, {axis});
      if least < height {
        CandidatesIffCovered(height, a, least);
        CoverLevelRises(height, a, least);
      }
    }
  }

  lemma CoverLevelRises(height: nat, a: Rect, j: nat)
    requires Sides(Pow2(height), a) && 0 < j < height && Covered(height, a, j)
    ensures CoverLevelFrom(height, a, j) == j <==> AllCandidatesAt(height, a, j)
  {
    if !AllCandidatesAt(height, a, j) {
      CoveredAbove(height, a, j);
      CoverLevelNear(height, a, j + 1, {});
    }
  }

  // ----- how wide the cube is

  lemma FitsAtDouble(height: nat, j: nat, s: int, e: int)
    requires j < height && IsSide(Pow2(height), s, e) && e - s <= Pow2(j)
    ensures Fits(Pow2(height), s, e, Pow2(j + 1))
  {
    HalfWidth(height, j + 1);
    var domain, h := Pow2(height), Pow2(j);
    var floor := FloorTo(s, h);
    if floor + 2 * h <= domain {
      assert Spans(domain, s, e, 2 * h, floor) && OnAxis(domain, 2 * h, floor);
    } else {
      assert Spans(domain, s, e, 2 * h, domain - 2 * h) && OnAxis(domain, 2 * h, domain - 2 * h);
    }
  }

  /** The least level that contains the query is the first one wide enough, or the next. */
  lemma LeastLevelNear(height: nat, a: Rect)
    requires Sides(Pow2(height), a) && LongestSide(a) <= Pow2(height)
    ensures LeastLevel(height, a) <= LevelFor(LongestSide(a), 0) + 1
  {
    var first := LevelFor(LongestSide(a), 0);
    LevelForIsLeast(LongestSide(a), 0);
    LeastLevelFromCovers(height, a, 0);
    if first < height {
      FitsAtDouble(height, first, a.start.x, a.end.x);
      FitsAtDouble(height, first, a.start.y, a.end.y);
      FitsAtDouble(height, first, a.start.z, a.end.z);
      CoveredByAxis(height, a, first + 1);
    }
  }

  /** The side fits a lattice interval exactly if it fits the last one that starts no later. */
  predicate FitsNow(domain: nat, s: int, e: int, width: nat)
    requires 0 <= s && width >= 2
  {
    e <= Min(FloorTo(s, width / 2), domain - width) + width
  }

  lemma FitsNowExact(height: nat, j: nat, s: int, e: int)
    requires 1 <= j <= height && IsSide(Pow2(height), s, e)
    ensures Pow2(j) >= 2 && (FitsNow(Pow2(height), s, e, Pow2(j)) <==> Fits(Pow2(height), s, e, Pow2(j)))
  {
    HalfWidth(height, j);
    var w, domain := Pow2(j), Pow2(height);
    var start := Min(FloorTo(s, w / 2), domain - w);
    if FitsNow(domain, s, e, w) {
      assert OnAxis(domain, w, start) && Spans(domain, s, e, w, start);
    }
    if Fits(domain, s, e, w) {
      var a :| OnAxis(domain, w, a) && Spans(domain, s, e, w, a);
      if a > FloorTo(s, w / 2) { NoMultipleBetween(FloorTo(s, w / 2), a, w / 2); }
    }
  }

  /** The first level wide enough for the longest side if the query fits a cube there, else the next. */
  function ReachLevel(height: nat, a: Rect): nat
    requires Sides(Pow2(height), a)
  {
    var first := LevelFor(LongestSide(a), 0);
    if first == 0 then 0
    else
      LevelForIsLeast(LongestSide(a), 0);
      Pow2Half(first);
      var w, domain := Pow2(first), Pow2(height);
      if FitsNow(domain, a.start.x, a.end.x, w) && FitsNow(domain, a.start.y, a.end.y, w)
          && FitsNow(domain, a.start.z, a.end.z, w)
      then first else first + 1
  }

  /** The least level that contains the query can be computed. */
  lemma LeastLevelComputed(height: nat, a: Rect)
    requires Sides(Pow2(height), a) && LongestSide(a) <= Pow2(height)
    ensures LeastLevel(height, a) == ReachLevel(height, a)
  {
    var first := LevelFor(LongestSide(a), 0);
    LeastLevelStart(height, a);
    LeastLevelNear(height, a);
    LeastLevelFromCovers(height, a, 0);
    if first == 0 {
      UnitCovered(height, a);
    } else {
      FitsNowExact(height, first, a.start.x, a.end.x);
      FitsNowExact(height, first, a.start.y, a.end.y);
      FitsNowExact(height, first, a.start.z, a.end.z);
      CoveredByAxis(height, a, first);
    }
  }

  /** No lattice cube that contains the query is narrower than the least level. */
  lemma LeastLevelNarrowest(height: nat, a: Rect)
    requires Root(height).ContainsRect(a)
    ensures forall c :: InLattice(height, c) && c.ContainsRect(a) ==> Pow2(LeastLevel(height, a)) <= Width(c)
  {
    var least := LeastLevel(height, a);
    LeastLevelFromCovers(height, a, 0);
    forall c | InLattice(height, c) && c.ContainsRect(a) ensures Pow2(least) <= Width(c) {
      var j :| IsCell(height, c, j);
      assert Covered(height, a, j);
      if least < j { Pow2Grows(least, j); }
    }
  }

  lemma LevelWidth(len: nat, j: nat)
    requires len >= 2 && j <= LevelFor(len, 0) + 1
    ensures Pow2(j) < 4 * len
  {
    var first := LevelFor(len, 0);
    LevelForIsLeast(len, 0);
    assert first > 0 && Pow2(first - 1) < len;
    if j < first + 1 { Pow2Grows(j, first + 1); }
    Pow2Half(first);
    Pow2Half(first + 1);
  }

  /** Without unit sides the cube is the smallest lattice cube around the query, and less than
      four times as wide as the longest side. */
  lemma LongSidesCover(height: nat, a: Rect)
    requires Sides(Pow2(height), a) && LongestSide(a) <= Pow2(height)
    requires a.end.x - a.start.x >= 2 && a.end.y - a.start.y >= 2 && a.end.z - a.start.z >= 2
    ensures forall c :: InLattice(height, c) && c.ContainsRect(a) ==> Pow2(CoverLevel(height, a)) <= Width(c)
    ensures Pow2(CoverLevel(height, a)) < 4 * LongestSide(a)
  {
    CoverLevelIsLeast(height, a);
    LeastLevelNear(height, a);
    assert !SomeMisrounded(Pow2(height), a, Pow2(LeastLevel(height, a)));
    LeastLevelNarrowest(height, a);
    LevelWidth(LongestSide(a), LeastLevel(height, a));
  }

  /** The search finds a narrowest lattice cube around the query exactly when no side is misrounded
      at the level that can be computed beforehand. */
  lemma CoverIsNarrowest(height: nat, a: Rect)
    requires Sides(Pow2(height), a) && LongestSide(a) <= Pow2(height)
    ensures (forall c :: InLattice(height, c) && c.ContainsRect(a) ==> Pow2(CoverLevel(height, a)) <= Width(c))
            <==> !SomeMisrounded(Pow2(height), a, Pow2(ReachLevel(height, a)))
  {
    var least := LeastLevel(height, a);
    CoverLevelIsLeast(height, a);
    LeastLevelComputed(height, a);
    LeastLevelNarrowest(height, a);
    if SomeMisrounded(Pow2(height), a, Pow2(least)) {
      LeastLevelFromCovers(height, a, 0);
      var c :| IsCell(height, c, least) && c.ContainsRect(a);
      assert InLattice(height, c) && Width(c) == Pow2(least);
      Pow2Grows(least, CoverLevel(height, a));
    }
  }

  /** A query for which the search stops two levels too high. */
  lemma TwoLevelsTooHigh(a: Rect)
    requires a == Rect(Point(0, 15, 14), Point(2, 16, 15))
    ensures Sides(Pow2(4), a) && LeastLevel(4, a) == 1 && CoverLevel(4, a) == 3
  {
    hide Covered, LeastLevel, AllCandidates;
    assert Pow2(0) == 1 && Pow2(1) == 2 && Pow2(2) == 4 && Pow2(3) == 8 && Pow2(4) == 16;
    TwoLevelsLeast(a);
    CoverLevelIsLeast(4, a);
    assert Misrounds(16, a.start.y, a.end.y, 2) && Misrounds(16, a.start.z, a.end.z, 4);
    CandidatesIffCovered(4, a, 1);
    CandidatesIffCovered(4, a, 2);
    CoverLevelNotBelow(4, a, 3);
    assert LevelFor(LongestSide(a), 0) == LevelFor(2, 1) == 1;
    assert CoverLevelFrom(4, a, 1) == CoverLevelFrom(4, a, 2) == CoverLevelFrom(4, a, 3);
  }

  lemma LeastIsOne(height: nat, a: Rect, c: Rect)
    requires height > 0 && LongestSide(a) > 1 && IsCell(height, c, 1) && c.ContainsRect(a)
    ensures LeastLevel(height, a) == 1
  {
    hide IsCell, LongestSide;
    assert Pow2(0) == 1;
    assert Covered(height, a, 1);
    NarrowCoversNothing(height, a, 0);
    assert LeastLevelFrom(height, a, 1) == 1;
  }

  lemma TwoLevelsLeast(a: Rect)
    requires a == Rect(Point(0, 15, 14), Point(2, 16, 15))
    ensures LeastLevel(4, a) == 1
  {
    assert Pow2(0) == 1 && Pow2(1) == 2 && Pow2(2) == 4 && Pow2(3) == 8 && Pow2(4) == 16;
    var c := Cube(Point(0, 14, 14), 2);
    LeastIsOne(4, a, c);
  }

  /** A query one position wide at the start of the last half cube misses the cube that contains it. */
  lemma UnitSideMissesCube(a: Rect)
    requires a == Rect(Point(3, 0, 0), Point(4, 2, 2))
    ensures Sides(Pow2(2), a) && LeastLevel(2, a) == 1 && CoverLevel(2, a) == 2
  {
    assert Pow2(1) == 2 && Pow2(2) == 4;
    UnitSideLeast(a);
    CoverLevelIsLeast(2, a);
    assert Misrounds(Pow2(2), a.start.x, a.end.x, Pow2(1));
    CoverLevelAtMost(2, a, LevelFor(LongestSide(a), 0));
  }

  lemma UnitSideLeast(a: Rect)
    requires a == Rect(Point(3, 0, 0), Point(4, 2, 2))
    ensures LeastLevel(2, a) == 1
  {
    assert Pow2(0) == 1 && Pow2(1) == 2 && Pow2(2) == 4;
    var c := Cube(Point(2, 0, 0), 2);
    LeastIsOne(2, a, c);
  }

  lemma {:induction false} CoverLevelAtMost(height: nat, a: Rect, j: nat)
    requires Sides(Pow2(height), a)
    ensures CoverLevelFrom(height, a, j) <= height
    decreases height - j
  {
    if 0 < j < height { CoverLevelAtMost(height, a, j + 1); }
  }

  // ----- the cube itself

  function AxisStart(domain: nat, s: int, e: int, width: nat): int
    requires IsSide(domain, s, e) && domain > 0 && width >= 2
  {
    var left := LeftStart(s, width / 2);
    if Spans(domain, s, e, width, left) then left else RightStart(e, width / 2, width)
  }

  function CubeAt(domain: nat, a: Rect, width: nat): Rect
    requires Sides(domain, a) && domain > 0 && width >= 2
  {
    Cube(Point(AxisStart(domain, a.start.x, a.end.x, width), AxisStart(domain, a.start.y, a.end.y, width),
               AxisStart(domain, a.start.z, a.end.z, width)), width)
  }

  /** The covering cube of an adjusted query. */
  function CoverOf(height: nat, a: Rect): Rect
    requires Sides(Pow2(height), a)
  {
    CubeOfLevel(height, a, CoverLevel(height, a))
  }

  lemma {:induction false} StopsAtCandidates(height: nat, a: Rect, j: nat)
    requires Sides(Pow2(height), a) && j > 0
    ensures var r := CoverLevelFrom(height, a, j);
            0 < r < height ==> AllCandidatesAt(height, a, r)
    decreases height - j
  {
    if j < height && !AllCandidatesAt(height, a, j) { StopsAtCandidates(height, a, j + 1); }
  }

  /** The cube is a lattice cube of the level the search stops at, and contains the query. */
  lemma CoverContains(height: nat, a: Rect)
    requires Sides(Pow2(height), a) && LongestSide(a) <= Pow2(height)
    ensures IsCell(height, CoverOf(height, a), CoverLevel(height, a)) && CoverOf(height, a).ContainsRect(a)
  {
    hide IsCell, CubeAt, UnitCube, CoverLevelFrom, AllCandidatesAt, Sides, LongestSide, Pow2;
    var first, j := LevelFor(LongestSide(a), 0), CoverLevel(height, a);
    CoverLevelAtMost(height, a, first);
    LevelForIsLeast(LongestSide(a), 0);
    if j == height {
      RootInLattice(height);
      RootContains(height, a);
    } else if first > 0 {
      StopsAtCandidates(height, a, first);
      CoverLevelNotBelow(height, a, first);
      CandidateCube(height, a, j);
    } else {
      StopsAtUnit(height, a);
      UnitCubeIsCell(height, a);
    }
  }

  lemma RootContains(height: nat, a: Rect)
    requires Sides(Pow2(height), a)
    ensures Root(height).ContainsRect(a)
  {}

  lemma StopsAtUnit(height: nat, a: Rect)
    requires Sides(Pow2(height), a) && LevelFor(LongestSide(a), 0) == 0 < height
    ensures CoverLevel(height, a) == 0 && LongestSide(a) == 1
  {
    LevelForIsLeast(LongestSide(a), 0);
  }

  /** Candidates on all axes make a lattice cube around the query. */
  lemma CandidateCube(height: nat, a: Rect, j: nat)
    requires 0 < j < height && Sides(Pow2(height), a) && AllCandidatesAt(height, a, j)
    ensures Pow2(j) >= 2 && Pow2(height) > 0
    ensures IsCell(height, CubeAt(Pow2(height), a, Pow2(j)), j) && CubeAt(Pow2(height), a, Pow2(j)).ContainsRect(a)
  {
    hide Pow2;
    HalfWidth(height, j);
    LeftOnAxis(height, j, a.start.x, a.end.x);
    LeftOnAxis(height, j, a.start.y, a.end.y);
    LeftOnAxis(height, j, a.start.z, a.end.z);
  }

  lemma {:induction false} CoverLevelNotBelow(height: nat, a: Rect, j: nat)
    requires Sides(Pow2(height), a) && 0 < j
    ensures j <= height ==> CoverLevelFrom(height, a, j) >= j
    decreases height - j
  {
    if j < height { CoverLevelNotBelow(height, a, j + 1); }
  }

  datatype Found = Missed | Hit(cube: Rect)

  function Starts(domain: nat, s: int, e: int, width: nat): seq<int>
    requires IsSide(domain, s, e) && domain > 0 && width >= 2
  {
    [LeftStart(s, width / 2), RightStart(e, width / 2, width)]
  }

  predicate Good(domain: nat, a: Rect, width: nat, x: int, y: int, z: int) {
    && Spans(domain, a.start.x, a.end.x, width, x)
    && Spans(domain, a.start.y, a.end.y, width, y)
    && Spans(domain, a.start.z, a.end.z, width, z)
  }

  predicate FailsXY(domain: nat, a: Rect, width: nat, x: int, y: int, zs: seq<int>) {
    |zs| == 2 && !Good(domain, a, width, x, y, zs[0]) && !Good(domain, a, width, x, y, zs[1])
  }

  predicate FailsX(domain: nat, a: Rect, width: nat, x: int, ys: seq<int>, zs: seq<int>) {
    |ys| == 2 && FailsXY(domain, a, width, x, ys[0], zs) && FailsXY(domain, a, width, x, ys[1], zs)
  }

  /** Tries the eight combinations of left and right starts, left before right on each axis. */
  method TryWidth(domain: nat, a: Rect, width: nat) returns (r: Found)
    requires Sides(domain, a) && domain > 0 && width >= 2
    ensures r == if AllCandidates(domain, a, width) then Hit(CubeAt(domain, a, width)) else Missed
  {
    var xs, ys := Starts(domain, a.start.x, a.end.x, width), Starts(domain, a.start.y, a.end.y, width);
    var zs := Starts(domain, a.start.z, a.end.z, width);
    for i := 0 to 2
      invariant i > 0 ==> FailsX(domain, a, width, xs[0], ys, zs)
      invariant i > 1 ==> FailsX(domain, a, width, xs[1], ys, zs)
    {
      for j := 0 to 2
        invariant j > 0 ==> FailsXY(domain, a, width, xs[i], ys[0], zs)
        invariant j > 1 ==> FailsXY(domain, a, width, xs[i], ys[1], zs)
      {
        for k := 0 to 2
          invariant k > 0 ==> !Good(domain, a, width, xs[i], ys[j], zs[0])
          invariant k > 1 ==> !Good(domain, a, width, xs[i], ys[j], zs[1])
        {
          var candidate := Cube(Point(xs[i], ys[j], zs[k]), width);
          if Cube(Point(0, 0, 0), domain).ContainsRect(candidate) && candidate.ContainsRect(a) {
            FirstGood(domain, a, width, i, j, k);
            return Hit(candidate);
          }
        }
      }
    }
    NoneGood(domain, a, width);
    return Missed;
  }

  /** The first good combination takes the left start on every axis where that one is good. */
  lemma FirstGood(domain: nat, a: Rect, width: nat, i: nat, j: nat, k: nat)
    requires Sides(domain, a) && domain > 0 && width >= 2 && i < 2 && j < 2 && k < 2
    requires var xs, ys, zs := Starts(domain, a.start.x, a.end.x, width), Starts(domain, a.start.y, a.end.y, width),
                               Starts(domain, a.start.z, a.end.z, width);
             && Good(domain, a, width, xs[i], ys[j], zs[k])
             && (i > 0 ==> FailsX(domain, a, width, xs[0], ys, zs))
             && (j > 0 ==> FailsXY(domain, a, width, xs[i], ys[0], zs))
             && (k > 0 ==> !Good(domain, a, width, xs[i], ys[j], zs[0]))
    ensures AllCandidates(domain, a, width)
    ensures CubeAt(domain, a, width) ==
            Cube(Point(Starts(domain, a.start.x, a.end.x, width)[i], Starts(domain, a.start.y, a.end.y, width)[j],
                       Starts(domain, a.start.z, a.end.z, width)[k]), width)
  {
    FirstOnAxis(domain, a.start.x, a.end.x, width, i);
    FirstOnAxis(domain, a.start.y, a.end.y, width, j);
    FirstOnAxis(domain, a.start.z, a.end.z, width, k);
  }

  lemma FirstOnAxis(domain: nat, s: int, e: int, width: nat, i: nat)
    requires IsSide(domain, s, e) && domain > 0 && width >= 2 && i < 2
    requires Spans(domain, s, e, width, Starts(domain, s, e, width)[i])
    requires i > 0 ==> !Spans(domain, s, e, width, Starts(domain, s, e, width)[0])
    ensures Candidate(domain, s, e, width) && AxisStart(domain, s, e, width) == Starts(domain, s, e, width)[i]
  {}

  lemma NoneGood(domain: nat, a: Rect, width: nat)
    requires Sides(domain, a) && domain > 0 && width >= 2
    requires var xs, ys, zs := Starts(domain, a.start.x, a.end.x, width), Starts(domain, a.start.y, a.end.y, width),
                               Starts(domain, a.start.z, a.end.z, width);
             FailsX(domain, a, width, xs[0], ys, zs) && FailsX(domain, a, width, xs[1], ys, zs)
    ensures !AllCandidates(domain, a, width)
  {}

  /** The covering cube of a query: it clamps the query, starts at the first power of two that
      is wide enough, and doubles until a candidate contains the query. */
  method GetSingleRangeCover(height: nat, query: Rect) returns (r: Rect)
    requires query.Ordered()
    ensures Sides(Pow2(height), Adjusted(query, Pow2(height)))
    ensures r == CoverOf(height, Adjusted(query, Pow2(height)))
    ensures CoversQuery(height, query, r)
  {
    var domain := Pow2(height);
    var a := Adjusted(query, domain);
    AdjustedSides(query, domain);
    QueryCovered(height, query);
    var power, j := FirstPower(LongestSide(a));
    r := SearchWidths(height, a, power, j);
  }

  /** The first power of two that is no smaller than the longest side. */
  method FirstPower(longest: nat) returns (power: nat, ghost j: nat)
    ensures power == Pow2(j) && j == LevelFor(longest, 0)
  {
    power, j := 1, 0;
    while power < longest
      invariant power == Pow2(j) && LevelFor(longest, 0) == LevelFor(longest, j)
      decreases longest - power
    {
      power, j := power * 2, j + 1;
    }
  }

  /** The cube that a search stopping at a level returns. */
  function CubeOfLevel(height: nat, a: Rect, j: nat): Rect
    requires Sides(Pow2(height), a)
  {
    if j >= height then Root(height)
    else if j == 0 then UnitCube(height, a)
    else
      HalfWidth(height, j);
      CubeAt(Pow2(height), a, Pow2(j))
  }

  /** The loop that doubles the width. */
  method SearchWidths(height: nat, a: Rect, first: nat, ghost j0: nat) returns (r: Rect)
    requires Sides(Pow2(height), a) && first == Pow2(j0)
    ensures r == CubeOfLevel(height, a, CoverLevelFrom(height, a, j0))
  {
    hide Sides, AllCandidates, CubeAt, UnitCube, Root, CoverLevelFrom, CubeOfLevel, Pow2;
    var domain, power := Pow2(height), first;
    ghost var j := j0;
    while power <= domain
      invariant power == Pow2(j)
      invariant CoverLevelFrom(height, a, j0) == CoverLevelFrom(height, a, j)
      decreases domain as int - power
    {
      LevelInDomain(height, j);
      UnitLevel(height, a, j);
      if power / 2 == 0 {
        return UnitCube(height, a);
      }
      HalfWidth(height, j);
      var found := TryWidth(domain, a, power);
      LevelStep(height, a, j);
      if found.Hit? {
        return found.cube;
      }
      power, j := power * 2, j + 1;
    }
    PastDomain(height, a, j);
    return Root(height);
  }

  /** Level 0 is the one where half the width is nothing. */
  lemma UnitLevel(height: nat, a: Rect, j: nat)
    requires Sides(Pow2(height), a) && j <= height
    ensures Pow2(j) / 2 == 0 <==> j == 0
    ensures j == 0 ==> CubeOfLevel(height, a, CoverLevelFrom(height, a, j)) == UnitCube(height, a)
    ensures Pow2(j) >= 1
  {}

  /** A search at a level above 0 stops there with a candidate or goes on with the next. */
  lemma LevelStep(height: nat, a: Rect, j: nat)
    requires Sides(Pow2(height), a) && 0 < j <= height
    ensures Pow2(j + 1) == 2 * Pow2(j) && Pow2(j) >= 2 && Pow2(height) > 0
    ensures AllCandidates(Pow2(height), a, Pow2(j)) ==>
              CubeOfLevel(height, a, CoverLevelFrom(height, a, j)) == CubeAt(Pow2(height), a, Pow2(j))
    ensures !AllCandidates(Pow2(height), a, Pow2(j)) ==>
              CoverLevelFrom(height, a, j) == CoverLevelFrom(height, a, j + 1)
  {
    HalfWidth(height, j);
    if j == height && AllCandidates(Pow2(height), a, Pow2(j)) { WholeDomain(Pow2(height), a, Pow2(j)); }
  }

  lemma PastDomain(height: nat, a: Rect, j: nat)
    requires Sides(Pow2(height), a) && Pow2(j) > Pow2(height)
    ensures CubeOfLevel(height, a, CoverLevelFrom(height, a, j)) == Root(height)
  {
    if j < height { Pow2Grows(j, height); }
  }

  lemma LevelInDomain(height: nat, j: nat)
    requires Pow2(j) <= Pow2(height)
    ensures j <= height
  {
    if j > height { Pow2Grows(height, j); }
  }

  /** The only spanning cube of the domain's width is the domain. */
  lemma WholeDomain(domain: nat, a: Rect, width: nat)
    requires Sides(domain, a) && domain == width >= 2 && AllCandidates(domain, a, width)
    ensures CubeAt(domain, a, width) == Cube(Point(0, 0, 0), domain)
  {}

  // ----- the cube seen from the query

  /** No lattice interval of this width around the side starts later. */
  lemma AxisStartLast(height: nat, j: nat, s: int, e: int, b: int)
    requires 1 <= j < height && IsSide(Pow2(height), s, e) && Pow2(j) >= 2 && Candidate(Pow2(height), s, e, Pow2(j))
    requires OnAxis(Pow2(height), Pow2(j), b) && Spans(Pow2(height), s, e, Pow2(j), b)
    ensures b <= AxisStart(Pow2(height), s, e, Pow2(j))
  {
    HalfWidth(height, j);
    Pow2Grows(j, height);
    var w, domain := Pow2(j), Pow2(height);
    var h := w / 2;
    var floor, ceil := FloorTo(s, h), CeilTo(e - 1, h);
    if b > floor { NoMultipleBetween(floor, b, h); }
    if !Spans(domain, s, e, w, floor) {
      assert b <= floor && floor > domain - w;
      NoMultipleBetween(domain - w, floor, h);
      if ceil < domain { NoMultipleBetween(ceil, domain, h); }
    }
  }

  /** Of the lattice cubes of its width around the query, the cube found starts last on every axis. */
  lemma CoverStartsLast(height: nat, a: Rect, c: Rect)
    requires Sides(Pow2(height), a) && LongestSide(a) <= Pow2(height)
    requires InLattice(height, c) && c.ContainsRect(a) && Width(c) == Width(CoverOf(height, a))
    ensures var start := CoverOf(height, a).start;
            c.start.x <= start.x && c.start.y <= start.y && c.start.z <= start.z
  {
    hide CoverLevelFrom, AxisStart;
    var j := CoverLevel(height, a);
    CoverContains(height, a);
    var i :| IsCell(height, c, i);
    SameLevel(i, j);
    if 0 < j < height {
      CoverLevelCandidates(height, a);
      AxisStartLast(height, j, a.start.x, a.end.x, c.start.x);
      AxisStartLast(height, j, a.start.y, a.end.y, c.start.y);
      AxisStartLast(height, j, a.start.z, a.end.z, c.start.z);
    }
  }

  lemma SameLevel(i: nat, j: nat)
    requires Pow2(i) == Pow2(j)
    ensures i == j
  {
    if i < j { Pow2Grows(i, j); }
    if j < i { Pow2Grows(j, i); }
  }

  lemma CoverLevelCandidates(height: nat, a: Rect)
    requires Sides(Pow2(height), a) && 0 < CoverLevel(height, a) < height
    ensures AllCandidatesAt(height, a, CoverLevel(height, a))
  {
    var first := LevelFor(LongestSide(a), 0);
    StopsAtCandidates(height, a, if first > 0 then first else 1);
  }

  /** A lattice cube that has all points a query asks for. */
  ghost predicate Around(height: nat, query: Rect, c: Rect) {
    InLattice(height, c) && forall p :: Asked(query, Pow2(height), p) ==> c.ContainsPoint(p)
  }

  /** How many positions of the domain are on a side. */
  function OnSide(s: int, e: int, domain: nat): int { Min(e, domain) - Max(s, 0) }

  /** No cube around the query with the width of r starts later, on any axis. */
  ghost predicate StartsLast(height: nat, query: Rect, r: Rect) {
    forall c :: Around(height, query, c) && Width(c) == Width(r) ==>
      c.start.x <= r.start.x && c.start.y <= r.start.y && c.start.z <= r.start.z
  }

  /** No cube around the query is narrower than r, and r is under four times as wide as one of its sides. */
  ghost predicate Narrow(height: nat, query: Rect, r: Rect) {
    && (forall c :: Around(height, query, c) ==> Width(r) <= Width(c))
    && (|| Width(r) < 4 * OnSide(query.start.x, query.end.x, Pow2(height))
        || Width(r) < 4 * OnSide(query.start.y, query.end.y, Pow2(height))
        || Width(r) < 4 * OnSide(query.start.z, query.end.z, Pow2(height)))
  }

  /** The cube of a query. A query that starts behind the domain asks for nothing. */
  ghost predicate CoversQuery(height: nat, query: Rect, r: Rect) {
    var domain := Pow2(height);
    && Around(height, query, r)
    && (query.start.x < domain && query.start.y < domain && query.start.z < domain ==> StartsLast(height, query, r))
    && (LongSides(query, domain) ==> Narrow(height, query, r))
  }

  /** Every side has at least two positions of the domain. */
  ghost predicate LongSides(query: Rect, domain: nat) {
    && OnSide(query.start.x, query.end.x, domain) >= 2
    && OnSide(query.start.y, query.end.y, domain) >= 2
    && OnSide(query.start.z, query.end.z, domain) >= 2
  }

  /** Having the points asked for is containing the adjusted query. */
  lemma AroundContains(height: nat, query: Rect, c: Rect)
    requires query.Ordered()
    requires query.start.x < Pow2(height) && query.start.y < Pow2(height) && query.start.z < Pow2(height)
    ensures Around(height, query, c) <==> InLattice(height, c) && c.ContainsRect(Adjusted(query, Pow2(height)))
  {
    var domain := Pow2(height);
    var a := Adjusted(query, domain);
    var last := Point(a.end.x - 1, a.end.y - 1, a.end.z - 1);
    AdjustedExact(query, domain, a.start);
    AdjustedExact(query, domain, last);
    assert Asked(query, domain, a.start) && Asked(query, domain, last);
    forall p | Asked(query, domain, p) ensures a.ContainsPoint(p) { AdjustedExact(query, domain, p); }
  }

  lemma CoverAround(height: nat, query: Rect)
    requires query.Ordered()
    ensures var a := Adjusted(query, Pow2(height));
            Sides(Pow2(height), a) && LongestSide(a) <= Pow2(height) && Around(height, query, CoverOf(height, a))
  {
    hide Asked, CoverOf;
    var a := Adjusted(query, Pow2(height));
    AdjustedSides(query, Pow2(height));
    CoverContains(height, a);
    forall p | Asked(query, Pow2(height), p) ensures a.ContainsPoint(p) { AdjustedExact(query, Pow2(height), p); }
  }

  lemma QueryCovered(height: nat, query: Rect)
    requires query.Ordered()
    ensures var a := Adjusted(query, Pow2(height));
            Sides(Pow2(height), a) && CoversQuery(height, query, CoverOf(height, a))
  {
    hide CoverOf, Around, Width;
    var domain := Pow2(height);
    var a := Adjusted(query, domain);
    CoverAround(height, query);
    if query.start.x < domain && query.start.y < domain && query.start.z < domain {
      QueryStartsLast(height, query);
    }
    if LongSides(query, domain) { QueryNarrow(height, query); }
  }

  lemma QueryStartsLast(height: nat, query: Rect)
    requires query.Ordered()
    requires query.start.x < Pow2(height) && query.start.y < Pow2(height) && query.start.z < Pow2(height)
    ensures var a := Adjusted(query, Pow2(height));
            Sides(Pow2(height), a) && StartsLast(height, query, CoverOf(height, a))
  {
    hide CoverOf, Around, Width, Adjusted;
    var a := Adjusted(query, Pow2(height));
    CoverAround(height, query);
    var r := CoverOf(height, a);
    forall c | Around(height, query, c) && Width(c) == Width(r)
      ensures c.start.x <= r.start.x && c.start.y <= r.start.y && c.start.z <= r.start.z
    {
      AroundContains(height, query, c);
      CoverStartsLast(height, a, c);
    }
  }

  lemma QueryNarrow(height: nat, query: Rect)
    requires query.Ordered() && LongSides(query, Pow2(height))
    ensures var a := Adjusted(query, Pow2(height));
            Sides(Pow2(height), a) && Narrow(height, query, CoverOf(height, a))
  {
    hide CoverOf, Around, CoverLevel, InLattice, Pow2;
    var domain := Pow2(height);
    var a := Adjusted(query, domain);
    CoverAround(height, query);
    LongSidesCover(height, a);
    CoverContains(height, a);
    CellWidth(height, CoverOf(height, a), CoverLevel(height, a));
    forall c | Around(height, query, c) ensures Width(CoverOf(height, a)) <= Width(c) {
      AroundContains(height, query, c);
    }
  }

  lemma CellWidth(height: nat, c: Rect, j: nat)
    requires IsCell(height, c, j)
    ensures Width(c) == Pow2(j)
  {}
}
