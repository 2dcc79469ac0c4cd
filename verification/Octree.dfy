/** The staggered octree: cubes of power-of-two width whose starts are multiples of half the
    width, so that neighbouring cubes of one width overlap. */
module Octree {
  import opened Arith
  import opened Grid

  /** The distance between neighbouring starts of cubes of width w. */
  function Step(w: nat): (h: nat)
    requires w > 0
    ensures h > 0
  {
    if w >= 2 then w / 2 else 1
  }

  predicate OnAxis(domain: nat, w: nat, s: int)
    requires w > 0
  {
    0 <= s && s + w <= domain && s % Step(w) == 0
  }

  /** c is a lattice cube of level j in a domain of 2^height cells a side. */
  ghost predicate IsCell(height: nat, c: Rect, j: nat) {
    && j <= height
    && c == Cube(c.start, Pow2(j))
    && OnAxis(Pow2(height), Pow2(j), c.start.x)
    && OnAxis(Pow2(height), Pow2(j), c.start.y)
    && OnAxis(Pow2(height), Pow2(j), c.start.z)
  }

  ghost predicate InLattice(height: nat, c: Rect) {
    exists j :: IsCell(height, c, j)
  }

  function Width(c: Rect): int { c.end.x - c.start.x }

  function Root(height: nat): Rect { Cube(Point(0, 0, 0), Pow2(height)) }

  /** A cube of the lattice starts, on each axis, at a multiple of half its width. */
  lemma HalfStarts(height: nat, j: nat, s: int)
    requires j <= height
    ensures OnAxis(Pow2(height), Pow2(j), s) <==>
            0 <= s && s + Pow2(j) <= Pow2(height) && (2 * s) % Pow2(j) == 0
  {
    hide Pow2;
    Pow2Half(j);
    if j > 0 && s >= 0 {
      HalfWide(j);
      DoubleRemainder(s, Step(Pow2(j)));
    } else if j == 0 {
      UnitWide();
    }
  }

  lemma HalfWide(j: nat)
    requires j > 0
    ensures Pow2(j) == 2 * Step(Pow2(j))
  {}

  lemma UnitWide()
    ensures Pow2(0) == 1 && Step(1) == 1
  {}

  lemma DoubleRemainder(s: nat, h: nat)
    requires h > 0
    ensures (2 * s) % (2 * h) == 0 <==> s % h == 0
  {
    QuotientNat(s, h);
    assert s == s / h * h + s % h;
    assert s / h * (2 * h) == 2 * (s / h * h);
    DivModUnique(2 * s, 2 * h, s / h, 2 * (s % h));
  }

  lemma RootInLattice(height: nat)
    ensures IsCell(height, Root(height), height)
  {}

  // ----- children

  /** How many children a cube of the given width has along one axis, and how far apart. */
  function Divisions(width: int): nat { if width / 2 >= 2 then 3 else if width / 2 >= 1 then 2 else 0 }
  function Stride(width: int): int { if width / 2 >= 2 then width / 2 / 2 else width / 2 }

  function ChildAt(parent: Rect, dx: nat, dy: nat, dz: nat): Rect {
    var h := Stride(Width(parent));
    Cube(Point(parent.start.x + dx * h, parent.start.y + dy * h, parent.start.z + dz * h), Width(parent) / 2)
  }

  /** The children in the order the triple loop emits them. */
  function Children(parent: Rect): seq<Rect> {
    var d := Divisions(Width(parent));
    if d == 3 then seq(27, i requires 0 <= i < 27 => ChildAt(parent, i / 9, i / 3 % 3, i % 3))
    else if d == 2 then seq(8, i requires 0 <= i < 8 => ChildAt(parent, i / 4, i / 2 % 2, i % 2))
    else []
  }

  lemma ChildListed(parent: Rect, dx: nat, dy: nat, dz: nat)
    requires dx < Divisions(Width(parent)) && dy < Divisions(Width(parent)) && dz < Divisions(Width(parent))
    ensures ChildAt(parent, dx, dy, dz) in Children(parent)
  {
    if Divisions(Width(parent)) == 3 {
      assert Children(parent)[9 * dx + 3 * dy + dz] == ChildAt(parent, dx, dy, dz);
    } else {
      assert Children(parent)[4 * dx + 2 * dy + dz] == ChildAt(parent, dx, dy, dz);
    }
  }

  lemma ListedChild(parent: Rect, c: Rect) returns (dx: nat, dy: nat, dz: nat)
    requires c in Children(parent)
    ensures dx < Divisions(Width(parent)) && dy < Divisions(Width(parent)) && dz < Divisions(Width(parent))
    ensures c == ChildAt(parent, dx, dy, dz)
  {
    var i :| 0 <= i < |Children(parent)| && Children(parent)[i] == c;
    if Divisions(Width(parent)) == 3 {
      dx, dy, dz := i / 9, i / 3 % 3, i % 3;
    } else {
      dx, dy, dz := i / 4, i / 2 % 2, i % 2;
    }
  }

  // ----- the lattice is closed under children, and every cube of it has a parent

  lemma Pow2Half(j: nat)
    ensures j >= 1 ==> Step(Pow2(j)) == Pow2(j - 1)
    ensures j >= 1 ==> Pow2(j) / 2 == Pow2(j - 1) && Pow2(j) >= 2
    ensures j >= 2 ==> Stride(Pow2(j)) == Pow2(j - 2) && Divisions(Pow2(j)) == 3
    ensures j == 1 ==> Stride(Pow2(j)) == 1 && Divisions(Pow2(j)) == 2
    ensures Pow2(0) == 1 && Step(Pow2(0)) == 1 && Divisions(Pow2(0)) == 0
  {}

  lemma AxisChild(height: nat, j: nat, s: int, d: nat)
    requires 1 <= j <= height && OnAxis(Pow2(height), Pow2(j), s) && d < Divisions(Pow2(j))
    ensures OnAxis(Pow2(height), Pow2(j - 1), s + d * Stride(Pow2(j)))
  {
    Pow2Half(j);
    Pow2Half(j - 1);
    if j >= 2 {
      var h := Pow2(j - 2);
      MultipleOfDouble(s, h);
      MultipleOf(d, h);
      SumOfMultiples(s, d * h, h);
    }
  }

  lemma ChildInLattice(height: nat, c: Rect, j: nat, dx: nat, dy: nat, dz: nat)
    requires IsCell(height, c, j) && j >= 1
    requires dx < Divisions(Width(c)) && dy < Divisions(Width(c)) && dz < Divisions(Width(c))
    ensures IsCell(height, ChildAt(c, dx, dy, dz), j - 1)
  {
    hide OnAxis, Step;
    Pow2Half(j);
    AxisChild(height, j, c.start.x, dx);
    AxisChild(height, j, c.start.y, dy);
    AxisChild(height, j, c.start.z, dz);
  }

  /** The offset of a level-j start inside a level-(j + 1) parent. */
  lemma AxisParent(height: nat, j: nat, s: int) returns (p: int, d: nat)
    requires j < height && OnAxis(Pow2(height), Pow2(j), s)
    ensures OnAxis(Pow2(height), Pow2(j + 1), p) && d < Divisions(Pow2(j + 1))
    ensures s == p + d * Stride(Pow2(j + 1))
  {
    Pow2Half(j);
    Pow2Half(j + 1);
    Pow2Grows(j, height);
    var domain := Pow2(height);
    if j == 0 {
      if s + 2 <= domain { p, d := s, 0; } else { p, d := s - 1, 1; }
    } else {
      var h := Pow2(j - 1);
      var floor := FloorTo(s, 2 * h);
      Pow2Divides(j, height);
      MultipleOfDouble(floor, h);
      if s > floor { NoMultipleBetween(floor, s, h); }
      SumOfMultiples(floor, h, h);
      if s > floor + h { NoMultipleBetween(floor + h, s, h); }
      if floor + 4 * h <= domain {
        p, d := floor, if s == floor then 0 else 1;
      } else {
        p, d := domain - 4 * h, 2;
        MultipleOf(2, 2 * h);
        SumOfMultiples(domain, 4 * h, 2 * h);
        NoMultipleBetween(p, floor, 2 * h);
      }
    }
  }

  lemma ParentInLattice(height: nat, c: Rect, j: nat) returns (parent: Rect)
    requires IsCell(height, c, j) && j < height
    ensures IsCell(height, parent, j + 1) && c in Children(parent) && parent.ContainsRect(c)
  {
    var px, dx := AxisParent(height, j, c.start.x);
    var py, dy := AxisParent(height, j, c.start.y);
    var pz, dz := AxisParent(height, j, c.start.z);
    parent := Cube(Point(px, py, pz), Pow2(j + 1));
    ChildAtStart(parent, j, c, dx, dy, dz);
    ChildListed(parent, dx, dy, dz);
    ChildInside(parent, dx, dy, dz, j + 1);
  }

  lemma ChildAtStart(parent: Rect, j: nat, c: Rect, dx: nat, dy: nat, dz: nat)
    requires parent == Cube(parent.start, Pow2(j + 1)) && c == Cube(c.start, Pow2(j))
    requires c.start.x == parent.start.x + dx * Stride(Pow2(j + 1))
    requires c.start.y == parent.start.y + dy * Stride(Pow2(j + 1))
    requires c.start.z == parent.start.z + dz * Stride(Pow2(j + 1))
    ensures Width(parent) == Pow2(j + 1) && c == ChildAt(parent, dx, dy, dz)
  {
    Pow2Half(j + 1);
  }

  lemma ChildInside(parent: Rect, dx: nat, dy: nat, dz: nat, j: nat)
    requires j >= 1 && parent == Cube(parent.start, Pow2(j))
    requires dx < Divisions(Width(parent)) && dy < Divisions(Width(parent)) && dz < Divisions(Width(parent))
    ensures parent.ContainsRect(ChildAt(parent, dx, dy, dz))
  {
    Pow2Half(j);
  }

  lemma ListedInside(height: nat, parent: Rect, j: nat, c: Rect)
    requires IsCell(height, parent, j) && c in Children(parent)
    ensures j >= 1 && IsCell(height, c, j - 1) && parent.ContainsRect(c)
  {
    if j == 0 { Pow2Half(0); }
    var dx, dy, dz := ListedChild(parent, c);
    ChildInLattice(height, parent, j, dx, dy, dz);
    ChildInside(parent, dx, dy, dz, j);
  }

  /** A set of cubes that holds the root, and with a cube each child that satisfies `keep`,
      holds every lattice cube that satisfies `keep` - provided whatever contains such a cube
      satisfies `keep` too. */
  lemma {:induction false} ReachesLattice(height: nat, cubes: set<Rect>, keep: Rect -> bool, c: Rect, j: nat)
    requires Root(height) in cubes
    requires forall p, q :: p in cubes && q in Children(p) && keep(q) ==> q in cubes
    requires forall p: Rect, q: Rect :: p.ContainsRect(q) && keep(q) ==> keep(p)
    requires IsCell(height, c, j) && keep(c)
    ensures c in cubes
    decreases height - j
  {
    if j == height {
      OnlyRootAtTop(height, c);
    } else {
      var parent := ParentInLattice(height, c, j);
      ReachesLattice(height, cubes, keep, parent, j + 1);
    }
  }

  lemma OnlyRootAtTop(height: nat, c: Rect)
    requires IsCell(height, c, height)
    ensures c == Root(height)
  {}

  // ----- the finite universe of candidate cubes

  ghost function Universe(height: nat): set<Rect> {
    set x: int, y: int, z: int, j: nat |
      0 <= x <= Pow2(height) && 0 <= y <= Pow2(height) && 0 <= z <= Pow2(height) && j <= height ::
      Cube(Point(x, y, z), Pow2(j))
  }

  lemma LatticeInUniverse(height: nat, c: Rect)
    requires InLattice(height, c)
    ensures c in Universe(height)
  {
    var j :| IsCell(height, c, j);
  }
}
