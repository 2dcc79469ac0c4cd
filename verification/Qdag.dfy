/** The octree index: every point is posted under the labels of all lattice cubes around it,
    a query asks for the label of its one covering cube. */
module Qdag {
  import opened Arith
  import opened Coordinates
  import opened Decimal
  import opened Grid
  import opened Octree
  import opened OctreeCover
  import opened Postings
  import opened QuadTrees

  function Label(c: Rect): string {
    Render(["(", ",", ",", ")-(", ",", ",", ")"],
           [c.start.x, c.start.y, c.start.z, c.end.x, c.end.y, c.end.z])
  }

  lemma LabelInjective(c: Rect, d: Rect)
    requires Label(c) == Label(d)
    ensures c == d
  {
    var seps := ["(", ",", ",", ")-(", ",", ",", ")"];
    var ns := [c.start.x, c.start.y, c.start.z, c.end.x, c.end.y, c.end.z];
    var ms := [d.start.x, d.start.y, d.start.z, d.end.x, d.end.y, d.end.z];
    RenderInjective(seps, ns, ms);
    assert ns[0] == ms[0] && ns[1] == ms[1] && ns[2] == ms[2] && ns[3] == ms[3] && ns[4] == ms[4] && ns[5] == ms[5];
  }

  /** The covers are the lattice cubes, named by their labels. */
  ghost function Cubes(height: nat): Scheme<Rect, Point> {
    Scheme(c => InLattice(height, c), c => Label(c), (c: Rect, p: Point) => c.ContainsPoint(p))
  }

  lemma CubesInjective(height: nat)
    ensures Cubes(height).Injective()
  {
    var s := Cubes(height);
    forall c, d | s.valid(c) && s.valid(d) && s.name(c) == s.name(d) ensures c == d {
      LabelInjective(c, d);
    }
  }

  method UniqueLabels(covers: seq<Rect>) returns (labels: set<string>)
    ensures labels == set c | c in covers :: Label(c)
  {
    labels := {};
    for i := 0 to |covers|
      invariant labels == set c | c in covers[..i] :: Label(c)
    {
      assert covers[..i + 1] == covers[..i] + [covers[i]];
      labels := labels + {Label(covers[i])};
    }
    assert covers[..|covers|] == covers;
  }

  lemma LabelsOfPoint(height: nat, p: Point, covers: seq<Rect>, labels: set<string>)
    requires forall c :: c in covers <==> InLattice(height, c) && c.ContainsPoint(p)
    requires labels == set c | c in covers :: Label(c)
    ensures Cubes(height).NamesOf(p, labels)
  {
    var s := Cubes(height);
    forall key ensures key in labels <==> exists c :: s.valid(c) && s.has(c, p) && s.name(c) == key {
      if key in labels {
        var c :| c in covers && Label(c) == key;
        assert s.valid(c) && s.has(c, p) && s.name(c) == key;
      }
      if c :| s.valid(c) && s.has(c, p) && s.name(c) == key {
        assert c in covers;
      }
    }
  }

  /** The keyword map of all entries: under the label of each lattice cube the ids of exactly
      the points in it, once each, and nothing under any other label. Entries without ids are skipped. */
  method MapPointsToLabels(tree: QuadTree, entries: seq<Entry<Point>>) returns (m: KeywordMap)
    requires tree.Valid()
    ensures Cubes(tree.height).Posted(map[], entries, m) && SameOutside(map[], m, Cubes(tree.height).AllNames())
  {
    hide Scheme.Posted, Scheme.AllNames, Scheme.NamesOf, Scheme.Injective;
    m := map[];
    ghost var s := Cubes(tree.height);
    NothingYet(s);
    CubesInjective(tree.height);
    for i := 0 to |entries|
      invariant s.Posted(map[], entries[..i], m) && SameOutside(map[], m, s.AllNames())
    {
      assert entries[..i + 1] == entries[..i] + [entries[i]];
      if entries[i].ids == [] {
        SkipEmpty(s, map[], entries[..i], entries[i], m);
      } else {
        var covers := tree.FindContainingRangeCovers(entries[i].point);
        var labels := UniqueLabels(covers);
        LabelsOfPoint(tree.height, entries[i].point, covers, labels);
        NamesOfCovers(s, entries[i].point, labels);
        m := PostEntry(s, map[], entries[..i], entries[i], labels, m);
      }
    }
    assert entries[..|entries|] == entries;
  }

  lemma NothingYet(s: Scheme<Rect, Point>)
    ensures s.Posted(map[], [], map[])
  {}

  method GetQueryLabels(height: nat, query: Rect) returns (labels: seq<string>)
    requires query.Ordered()
    ensures Sides(Pow2(height), Adjusted(query, Pow2(height)))
    ensures labels == [Label(CoverOf(height, Adjusted(query, Pow2(height))))]
  {
    var cover := GetSingleRangeCover(height, query);
    labels := [Label(cover)];
  }

  /** A query's label retrieves the ids of exactly the points in a lattice cube that contains
      the clamped query. */
  lemma QueryAnswer(height: nat, entries: seq<Entry<Point>>, m: KeywordMap, query: Rect)
    requires query.Ordered() && Cubes(height).Posted(map[], entries, m)
    ensures var a := Adjusted(query, Pow2(height));
            && Sides(Pow2(height), a)
            && InLattice(height, CoverOf(height, a)) && CoverOf(height, a).ContainsRect(a)
            && Get(m, Label(CoverOf(height, a))) == Cubes(height).IdsIn(entries, CoverOf(height, a))
  {
    var a := Adjusted(query, Pow2(height));
    AdjustedSides(query, Pow2(height));
    CoverContains(height, a);
    assert Cubes(height).valid(CoverOf(height, a));
  }

  /** A point of the query that lies in the domain is in the adjusted query, even on an empty side. */
  lemma AdjustedKeeps(query: Rect, domain: nat, p: Point)
    requires RectHas(query, p) && Cube(Point(0, 0, 0), domain).ContainsPoint(p)
    ensures Adjusted(query, domain).ContainsPoint(p)
  {}

  /** No record is lost: every record whose position lies in the continuous query box is among
      the postings the query retrieves, provided its grid cell's entry lists it. */
  lemma NoRecordLost(height: nat, t: Transformer, entries: seq<Entry<Point>>, m: KeywordMap, box: Box, p: Position,
                     i: nat, id: int)
    requires Cubes(height).Posted(map[], entries, m) && t.gridBits <= height
    requires t.InRange(p) && box.Contains(p)
    requires i < |entries| && entries[i].point == t.ToGridPoint(p) && id in entries[i].ids
    ensures var query := t.ToGridRect(box);
            var a := Adjusted(query, Pow2(height));
            query.Ordered() && Sides(Pow2(height), a) && id in Get(m, Label(CoverOf(height, a)))
  {
    var query := t.ToGridRect(box);
    GridPointInRect(t, box, p);
    if t.gridBits < height { Pow2Grows(t.gridBits, height); }
    GridPostings(height, entries, m, query, i, id);
  }

  lemma GridPostings(height: nat, entries: seq<Entry<Point>>, m: KeywordMap, query: Rect, i: nat, id: int)
    requires Cubes(height).Posted(map[], entries, m) && query.Ordered()
    requires i < |entries| && RectHas(query, entries[i].point) && Root(height).ContainsPoint(entries[i].point)
    requires id in entries[i].ids
    ensures var a := Adjusted(query, Pow2(height));
            Sides(Pow2(height), a) && id in Get(m, Label(CoverOf(height, a)))
  {
    QueryAnswer(height, entries, m, query);
    AdjustedKeeps(query, Pow2(height), entries[i].point);
    var cover := CoverOf(height, Adjusted(query, Pow2(height)));
    assert cover.ContainsPoint(entries[i].point);
    IdsInHas(Cubes(height), entries, cover, i);
  }
}
