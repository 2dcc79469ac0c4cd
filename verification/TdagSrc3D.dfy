/** The three-dimensional range index: one cover tree per axis; a point is posted under every
    triple of ranges on its three descents, a query asks for the triple of its three covers. */
module TdagSrc3D {
  import opened Arith
  import opened Decimal
  import opened Grid
  import opened Postings
  import opened Sequences
  import opened Tdags

  datatype Cover3 = Cover3(x: Range, y: Range, z: Range) {
    predicate Has(p: Point) { x.Has(p.x) && y.Has(p.y) && z.Has(p.z) }
  }

  function Serialize(c: Cover3): string {
    Render(["", ",", "|", ",", "|", ",", ""], [c.x.lo, c.x.hi, c.y.lo, c.y.hi, c.z.lo, c.z.hi])
  }

  lemma SerializeInjective(c: Cover3, d: Cover3)
    requires Serialize(c) == Serialize(d)
    ensures c == d
  {
    var seps := ["", ",", "|", ",", "|", ",", ""];
    var ns := [c.x.lo, c.x.hi, c.y.lo, c.y.hi, c.z.lo, c.z.hi];
    var ms := [d.x.lo, d.x.hi, d.y.lo, d.y.hi, d.z.lo, d.z.hi];
    RenderInjective(seps, ns, ms);
    assert ns[0] == ms[0] && ns[1] == ms[1] && ns[2] == ms[2] && ns[3] == ms[3] && ns[4] == ms[4] && ns[5] == ms[5];
  }

  /** The trees of the three axes, given by their heights. */
  datatype Index = Index(hx: nat, hy: nat, hz: nat) {
    predicate InDomain(p: Point) { 0 <= p.x < Pow2(hx) && 0 <= p.y < Pow2(hy) && 0 <= p.z < Pow2(hz) }

    /** The points for which all descents end: also those just behind the end of an axis. */
    predicate InReach(p: Point) { 0 <= p.x <= Pow2(hx) && 0 <= p.y <= Pow2(hy) && 0 <= p.z <= Pow2(hz) }

    ghost predicate IsCover(c: Cover3) {
      HasRange(Initialize(hx), c.x) && HasRange(Initialize(hy), c.y) && HasRange(Initialize(hz), c.z)
    }

    ghost predicate IsTriple(c: Cover3) { ListedRange(hx, c.x) && ListedRange(hy, c.y) && ListedRange(hz, c.z) }

    predicate Under(c: Cover3, p: Point) { PutUnder(hx, p.x, c.x) && PutUnder(hy, p.y, c.y) && PutUnder(hz, p.z, c.z) }

    ghost function Covers(): Scheme<Cover3, Point> {
      Scheme((c: Cover3) => IsTriple(c), c => Serialize(c), (c: Cover3, p: Point) => Under(c, p))
    }
  }

  datatype Created = Rejected | Created(index: Index)

  /** The constructor: the extents must be positive, and are rounded up to powers of two. */
  function Create(maxX: int, maxY: int, maxZ: int): (r: Created)
    ensures r.Created? <==> maxX > 0 && maxY > 0 && maxZ > 0
    ensures r.Created? ==> LowestFor(maxX, r.index.hx) && LowestFor(maxY, r.index.hy) && LowestFor(maxZ, r.index.hz)
    ensures r.Created? ==>
      forall p: Point :: 0 <= p.x < maxX && 0 <= p.y < maxY && 0 <= p.z < maxZ ==> r.index.InDomain(p)
  {
    if maxX <= 0 || maxY <= 0 || maxZ <= 0 then Rejected
    else
      LevelForIsLeast(maxX, 0);
      LevelForIsLeast(maxY, 0);
      LevelForIsLeast(maxZ, 0);
      Created(Index(LevelFor(maxX, 0), LevelFor(maxY, 0), LevelFor(maxZ, 0)))
  }

  lemma CoversInjective(index: Index)
    ensures index.Covers().Injective()
  {
    var s := index.Covers();
    forall c, d | s.valid(c) && s.valid(d) && s.name(c) == s.name(d) ensures c == d {
      SerializeInjective(c, d);
    }
  }

  // ----- posting one entry under a product of ranges

  ghost function Names(xs: set<Range>, ys: set<Range>, zs: set<Range>): set<string> {
    set x, y, z | x in xs && y in ys && z in zs :: Serialize(Cover3(x, y, z))
  }

  lemma NamesHave(xs: set<Range>, ys: set<Range>, zs: set<Range>, x: Range, y: Range, z: Range)
    ensures Serialize(Cover3(x, y, z)) in Names(xs, ys, zs) <==> x in xs && y in ys && z in zs
  {
    if Serialize(Cover3(x, y, z)) in Names(xs, ys, zs) {
      var x', y', z' :| x' in xs && y' in ys && z' in zs && Serialize(Cover3(x, y, z)) == Serialize(Cover3(x', y', z'));
      SerializeInjective(Cover3(x, y, z), Cover3(x', y', z'));
    }
  }

  /** The names of two products with a disjoint factor are disjoint. */
  lemma NamesApart(xs: set<Range>, ys: set<Range>, zs: set<Range>, xs': set<Range>, ys': set<Range>, zs': set<Range>)
    requires xs !! xs' || ys !! ys' || zs !! zs'
    ensures Names(xs, ys, zs) !! Names(xs', ys', zs')
  {
    forall key | key in Names(xs, ys, zs) ensures key !in Names(xs', ys', zs') {
      var x, y, z :| x in xs && y in ys && z in zs && key == Serialize(Cover3(x, y, z));
      NamesHave(xs', ys', zs', x, y, z);
    }
  }

  lemma NextOf(s: seq<Range>, i: nat)
    requires i < |s| && Distinct(s)
    ensures Members(s[..i + 1]) == Members(s[..i]) + {s[i]} && s[i] !in Members(s[..i])
  {
    assert s[..i + 1] == s[..i] + [s[i]];
  }

  /** What the three loops post under: entry, on top of base and entries, once per name still to do. */
  datatype Job = Job(index: Index, base: KeywordMap, entries: seq<Entry<Point>>, entry: Entry<Point>) {
    ghost predicate Doing(todo: set<string>, m: KeywordMap) {
      index.Covers().PartlyPosted(base, entries, entry, todo, m) && SameOutside(base, m, index.Covers().AllNames())
    }
    ghost predicate Due(names: set<string>) {
      forall key :: key in names ==> exists c :: index.IsTriple(c) && index.Under(c, entry.point) && Serialize(c) == key
    }
  }

  /** One more name of a product: it is still to do. */
  lemma NextName(x: Range, y: Range, zs: seq<Range>, k: nat, todo: set<string>)
    requires k < |zs| && Distinct(zs) && Names({x}, {y}, Members(zs)) <= todo
    ensures var key := Serialize(Cover3(x, y, zs[k]));
            && key in todo - Names({x}, {y}, Members(zs[..k]))
            && todo - Names({x}, {y}, Members(zs[..k + 1])) == todo - Names({x}, {y}, Members(zs[..k])) - {key}
  {
    hide Serialize;
    var key := Serialize(Cover3(x, y, zs[k]));
    NextOf(zs, k);
    NamesHave({x}, {y}, Members(zs), x, y, zs[k]);
    NamesHave({x}, {y}, Members(zs[..k]), x, y, zs[k]);
    assert Names({x}, {y}, Members(zs[..k + 1])) == Names({x}, {y}, Members(zs[..k])) + {key};
  }

  lemma NoNames(x: Range, y: Range, zs: seq<Range>, todo: set<string>)
    ensures todo - Names({x}, {y}, Members(zs[..0])) == todo
  {}

  method PostZ(ghost job: Job, ids: seq<int>, x: Range, y: Range, zs: seq<Range>, m: KeywordMap,
               ghost todo: set<string>)
    returns (m': KeywordMap)
    requires ids == job.entry.ids && Distinct(zs)
    requires job.Doing(todo, m) && job.Due(todo) && Names({x}, {y}, Members(zs)) <= todo
    ensures job.Doing(todo - Names({x}, {y}, Members(zs)), m')
  {
    hide Names, Members, Serialize, Distinct, Scheme.AllNames;
    m' := m;
    ghost var s := job.index.Covers();
    CoversInjective(job.index);
    NoNames(x, y, zs, todo);
    for k := 0 to |zs|
      invariant job.Doing(todo - Names({x}, {y}, Members(zs[..k])), m')
    {
      var key := Serialize(Cover3(x, y, zs[k]));
      NextName(x, y, zs, k, todo);
      DueKey(job, todo, key);
      PostKey(s, job.base, job.entries, job.entry, todo - Names({x}, {y}, Members(zs[..k])), m', key);
      m' := m'[key := Get(m', key) + ids];
    }
    assert zs[..|zs|] == zs;
  }

  lemma DueKey(job: Job, todo: set<string>, key: string)
    requires job.Due(todo) && key in todo
    ensures var s := job.index.Covers();
            key in s.AllNames() && exists c :: s.valid(c) && s.has(c, job.entry.point) && s.name(c) == key
  {
    var c :| job.index.IsTriple(c) && job.index.Under(c, job.entry.point) && Serialize(c) == key;
    var s := job.index.Covers();
    assert s.valid(c) && s.has(c, job.entry.point) && s.name(c) == key;
  }

  method PostYZ(ghost job: Job, ids: seq<int>, x: Range, ys: seq<Range>, zs: seq<Range>, m: KeywordMap,
                ghost todo: set<string>)
    returns (m': KeywordMap)
    requires ids == job.entry.ids && Distinct(ys) && Distinct(zs)
    requires job.Doing(todo, m) && job.Due(todo) && Names({x}, Members(ys), Members(zs)) <= todo
    ensures job.Doing(todo - Names({x}, Members(ys), Members(zs)), m')
  {
    hide Job.Doing;
    m' := m;
    assert todo - Names({x}, Members(ys[..0]), Members(zs)) == todo;
    for j := 0 to |ys|
      invariant job.Doing(todo - Names({x}, Members(ys[..j]), Members(zs)), m')
    {
      ghost var done := Names({x}, Members(ys[..j]), Members(zs));
      ghost var next := Names({x}, {ys[j]}, Members(zs));
      NextOf(ys, j);
      NamesApart({x}, Members(ys[..j]), Members(zs), {x}, {ys[j]}, Members(zs));
      assert Names({x}, Members(ys[..j + 1]), Members(zs)) == done + next;
      assert next <= Names({x}, Members(ys), Members(zs));
      m' := PostZ(job, ids, x, ys[j], zs, m', todo - done);
      assert todo - (done + next) == (todo - done) - next;
    }
    assert ys[..|ys|] == ys;
  }

  method PostXYZ(ghost job: Job, ids: seq<int>, xs: seq<Range>, ys: seq<Range>, zs: seq<Range>, m: KeywordMap,
                 ghost todo: set<string>)
    returns (m': KeywordMap)
    requires ids == job.entry.ids && Distinct(xs) && Distinct(ys) && Distinct(zs)
    requires job.Doing(todo, m) && job.Due(todo) && Names(Members(xs), Members(ys), Members(zs)) == todo
    ensures job.Doing({}, m')
  {
    hide Job.Doing;
    m' := m;
    assert todo - Names(Members(xs[..0]), Members(ys), Members(zs)) == todo;
    for i := 0 to |xs|
      invariant job.Doing(todo - Names(Members(xs[..i]), Members(ys), Members(zs)), m')
    {
      ghost var done := Names(Members(xs[..i]), Members(ys), Members(zs));
      ghost var next := Names({xs[i]}, Members(ys), Members(zs));
      NextOf(xs, i);
      NamesApart(Members(xs[..i]), Members(ys), Members(zs), {xs[i]}, Members(ys), Members(zs));
      assert Names(Members(xs[..i + 1]), Members(ys), Members(zs)) == done + next;
      assert next <= todo;
      m' := PostYZ(job, ids, xs[i], ys, zs, m', todo - done);
      assert todo - (done + next) == (todo - done) - next;
    }
    assert xs[..|xs|] == xs;
    assert todo - Names(Members(xs), Members(ys), Members(zs)) == {};
  }

  /** The names an entry is due under are those of the product of its three descents. */
  lemma DescentNames(index: Index, p: Point)
    requires index.InReach(p)
    ensures var names := Names(Members(Descent(index.hx, p.x)), Members(Descent(index.hy, p.y)),
                               Members(Descent(index.hz, p.z)));
            index.Covers().NamesOf(p, names)
  {
    hide Descent, ListedRange, PutUnder;
    var xs, ys, zs := Members(Descent(index.hx, p.x)), Members(Descent(index.hy, p.y)), Members(Descent(index.hz, p.z));
    var s := index.Covers();
    forall key ensures key in Names(xs, ys, zs) <==> exists c :: s.valid(c) && s.has(c, p) && s.name(c) == key {
      if key in Names(xs, ys, zs) {
        var x, y, z :| x in xs && y in ys && z in zs && key == Serialize(Cover3(x, y, z));
        TripleOfPoint(index, p, Cover3(x, y, z));
        assert s.valid(Cover3(x, y, z)) && s.has(Cover3(x, y, z), p) && s.name(Cover3(x, y, z)) == key;
      }
      if c :| s.valid(c) && s.has(c, p) && s.name(c) == key {
        TripleOfPoint(index, p, c);
        NamesHave(xs, ys, zs, c.x, c.y, c.z);
      }
    }
  }

  /** A triple of ranges is on a point's three descents exactly when the point is put under it. */
  lemma TripleOfPoint(index: Index, p: Point, c: Cover3)
    requires index.InReach(p)
    ensures index.IsTriple(c) && index.Under(c, p) <==>
            c.x in Descent(index.hx, p.x) && c.y in Descent(index.hy, p.y) && c.z in Descent(index.hz, p.z)
  {
    hide Descent, ListedRange, PutUnder;
    ListedExactly(index.hx, p.x, c.x);
    ListedExactly(index.hy, p.y, c.y);
    ListedExactly(index.hz, p.z, c.z);
  }

  /** A point of the domain is put under exactly the covers that have it; a point just behind the end of
      an axis under covers that do not have it, the whole domain among them if it is behind on all axes. */
  lemma UnderIsHas(index: Index, c: Cover3, p: Point)
    requires index.InReach(p) && index.IsCover(c)
    ensures index.InDomain(p) ==> (index.Under(c, p) <==> c.Has(p))
    ensures !index.InDomain(p) ==> !c.Has(p)
    ensures p == Point(Pow2(index.hx), Pow2(index.hy), Pow2(index.hz)) ==>
              (index.Under(c, p) <==> c.x.hi == p.x - 1 && c.y.hi == p.y - 1 && c.z.hi == p.z - 1)
  {
    InsideTree(index.hx, c.x);
    InsideTree(index.hy, c.y);
    InsideTree(index.hz, c.z);
  }

  lemma InsideTree(h: nat, r: Range)
    requires HasRange(Initialize(h), r)
    ensures 0 <= r.lo <= r.hi < Pow2(h)
  {
    InitializeIsTree(h);
    InTreeIsHasRange(Initialize(h), h, 0, r);
    RangesInside(h, 0, r);
  }

  // ----- building and asking

  method PostPoint(index: Index, ghost base: KeywordMap, ghost entries: seq<Entry<Point>>, entry: Entry<Point>,
                   m: KeywordMap)
    returns (m': KeywordMap)
    requires index.InReach(entry.point) && index.Covers().Posted(base, entries, m)
    requires SameOutside(base, m, index.Covers().AllNames())
    ensures index.Covers().Posted(base, entries + [entry], m') && SameOutside(base, m', index.Covers().AllNames())
  {
    hide Scheme.AllNames, Descent;
    var p := entry.point;
    var xs := DescendTree(index.hx, p.x);
    var ys := DescendTree(index.hy, p.y);
    var zs := DescendTree(index.hz, p.z);
    DescentIsDistinct(index.hx, p.x);
    DescentIsDistinct(index.hy, p.y);
    DescentIsDistinct(index.hz, p.z);
    DescentNames(index, p);
    ghost var job := Job(index, base, entries, entry);
    ghost var todo := Names(Members(xs), Members(ys), Members(zs));
    StartJob(job, todo, m);
    m' := PostXYZ(job, entry.ids, xs, ys, zs, m, todo);
    AllPosted(index.Covers(), base, entries, entry, m');
  }

  lemma StartJob(job: Job, todo: set<string>, m: KeywordMap)
    requires job.index.Covers().NamesOf(job.entry.point, todo) && job.index.Covers().Posted(job.base, job.entries, m)
    requires SameOutside(job.base, m, job.index.Covers().AllNames())
    ensures job.Doing(todo, m) && job.Due(todo)
  {
    var s := job.index.Covers();
    NothingPosted(s, job.base, job.entries, job.entry, todo, m);
    forall key | key in todo
      ensures exists c :: job.index.IsTriple(c) && job.index.Under(c, job.entry.point) && Serialize(c) == key
    {
      var c :| s.valid(c) && s.has(c, job.entry.point) && s.name(c) == key;
      assert job.index.IsTriple(c) && job.index.Under(c, job.entry.point) && Serialize(c) == key;
    }
  }

  /** The keyword map of all entries: under each triple of ranges the ids of exactly the points that are
      put under it, once each, and nothing under any other label. For other points a descent never ends. */
  method MapPointsToLabels(index: Index, entries: seq<Entry<Point>>) returns (m: KeywordMap)
    requires forall e :: e in entries && e.ids != [] ==> index.InReach(e.point)
    ensures index.Covers().Posted(map[], entries, m) && SameOutside(map[], m, index.Covers().AllNames())
  {
    hide Scheme.AllNames;
    m := map[];
    for i := 0 to |entries|
      invariant index.Covers().Posted(map[], entries[..i], m) && SameOutside(map[], m, index.Covers().AllNames())
    {
      assert entries[..i + 1] == entries[..i] + [entries[i]];
      if entries[i].ids == [] {
        SkipEmpty(index.Covers(), map[], entries[..i], entries[i], m);
      } else {
        m := PostPoint(index, map[], entries[..i], entries[i], m);
      }
    }
    assert entries[..|entries|] == entries;
  }

  /** The labels of a query, or the exception of a tree without a cover. */
  datatype Queried = NoLabels | Labels(labels: seq<string>)

  function AxisCover(h: nat, lo: int, hi: int): Cover { SingleRangeCover(Initialize(h), Range(lo, hi)) }

  /** The label of a query, whose bounds are taken as inclusive on both ends. */
  function GetQueryLabels(index: Index, query: Rect): Queried {
    var x, y, z := AxisCover(index.hx, query.start.x, query.end.x), AxisCover(index.hy, query.start.y, query.end.y),
                   AxisCover(index.hz, query.start.z, query.end.z);
    if x.NoCover? || y.NoCover? || z.NoCover? then NoLabels
    else Labels([Serialize(Cover3(x.range, y.range, z.range))])
  }

  /** A query has labels exactly when both its corners lie in the domain: a box that ends at the
      domain's end, one past the last cell, throws. */
  lemma QueryHasLabels(index: Index, query: Rect)
    requires query.Ordered()
    ensures GetQueryLabels(index, query).Labels? <==> index.InDomain(query.start) && index.InDomain(query.end)
  {
    InitializeIsTree(index.hx);
    InitializeIsTree(index.hy);
    InitializeIsTree(index.hz);
    CoverExists(Initialize(index.hx), index.hx, Range(query.start.x, query.end.x));
    CoverExists(Initialize(index.hy), index.hy, Range(query.start.y, query.end.y));
    CoverExists(Initialize(index.hz), index.hz, Range(query.start.z, query.end.z));
  }

  /** r is a range of the tree around lo and hi, and no such range is shorter. */
  ghost predicate Shortest(h: nat, lo: int, hi: int, r: Range) {
    && HasRange(Initialize(h), r) && r.Contains(Range(lo, hi))
    && forall q :: HasRange(Initialize(h), q) && q.Contains(Range(lo, hi)) ==> r.Length() <= q.Length()
  }

  ghost predicate ShortestCover(index: Index, query: Rect, c: Cover3) {
    && Shortest(index.hx, query.start.x, query.end.x, c.x)
    && Shortest(index.hy, query.start.y, query.end.y, c.y)
    && Shortest(index.hz, query.start.z, query.end.z, c.z)
  }

  lemma AxisCovers(h: nat, lo: int, hi: int, r: Range)
    requires lo <= hi && AxisCover(h, lo, hi) == Found(r)
    ensures Shortest(h, lo, hi, r)
  {
    InitializeIsTree(h);
    SingleRangeCoverIsShortest(Initialize(h), h, Range(lo, hi), r);
  }

  predicate Between(query: Rect, p: Point) {
    && query.start.x <= p.x <= query.end.x
    && query.start.y <= p.y <= query.end.y
    && query.start.z <= p.z <= query.end.z
  }

  /** The label of a query names one cover, and retrieves the ids of exactly the points that are put under
      it, once each. Of the points in the domain these are the points it has, among them every point
      between the corners of the query. */
  lemma QueryAnswer(index: Index, entries: seq<Entry<Point>>, m: KeywordMap, query: Rect) returns (c: Cover3)
    requires query.Ordered() && index.Covers().Posted(map[], entries, m)
    requires GetQueryLabels(index, query).Labels?
    ensures ShortestCover(index, query, c) && GetQueryLabels(index, query).labels == [Serialize(c)]
    ensures Get(m, Serialize(c)) == index.Covers().IdsIn(entries, c)
    ensures forall p: Point :: Between(query, p) ==> c.Has(p) && index.InDomain(p)
    ensures forall p: Point :: index.InDomain(p) ==> (index.Covers().has(c, p) <==> c.Has(p))
  {
    hide HasRange, Initialize, PutUnder, SingleRangeCover, AxisCover, Render, Pow2;
    c := Cover3(AxisCover(index.hx, query.start.x, query.end.x).range,
                AxisCover(index.hy, query.start.y, query.end.y).range,
                AxisCover(index.hz, query.start.z, query.end.z).range);
    AxisCovers(index.hx, query.start.x, query.end.x, c.x);
    AxisCovers(index.hy, query.start.y, query.end.y, c.y);
    AxisCovers(index.hz, query.start.z, query.end.z, c.z);
    assert index.Covers().valid(c);
    QueryHasLabels(index, query);
    forall p: Point | index.InDomain(p) ensures index.Under(c, p) <==> c.Has(p) { UnderIsHas(index, c, p); }
  }
}
