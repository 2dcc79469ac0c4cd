/** The two-level range index: level one maps attribute ranges to groups of equal attributes,
    level two maps ranges of sorted positions to records. */
module SrcI1 {
  import opened Arith
  import opened Decimal
  import opened Postings
  import opened Sequences
  import opened Sorting
  import opened Tdags

  datatype Rec = Rec(attr: int, id: int)

  /** A group: an attribute value and the positions of its records in sorted order. */
  datatype RangeMeta = RangeMeta(attr: int, start: int, end: int)

  function RecKey(r: Rec): Key { (r.attr, r.id) }

  function Arrange(recs: seq<Rec>): seq<Rec> { Sort(RecKey, recs) }

  /** By attribute, and by id where attributes are equal. */
  ghost predicate InOrder(sorted: seq<Rec>) {
    forall i, j :: 0 <= i < j < |sorted| ==>
      || sorted[i].attr < sorted[j].attr
      || (sorted[i].attr == sorted[j].attr && sorted[i].id <= sorted[j].id)
  }

  /** The records, all of them and in order. */
  ghost predicate Arranged(recs: seq<Rec>, sorted: seq<Rec>) { multiset(sorted) == multiset(recs) && InOrder(sorted) }

  lemma ArrangeExact(recs: seq<Rec>)
    ensures Arranged(recs, Arrange(recs)) && |Arrange(recs)| == |recs|
  {
    SortSorts(RecKey, recs);
    var s := Arrange(recs);
    forall i, j | 0 <= i < j < |s|
      ensures s[i].attr < s[j].attr || (s[i].attr == s[j].attr && s[i].id <= s[j].id)
    {
      assert Before(RecKey(s[i]), RecKey(s[j]));
    }
  }

  // ----- the table of groups

  ghost predicate GroupOk(sorted: seq<Rec>, g: RangeMeta, len: nat) {
    && 0 <= g.start <= g.end < len <= |sorted|
    && forall p :: g.start <= p <= g.end ==> sorted[p].attr == g.attr
  }

  /** The table partitions the first len positions into groups of one attribute each, in
      increasing order of attribute. */
  ghost predicate TableOk(sorted: seq<Rec>, table: seq<RangeMeta>, len: nat) {
    && len <= |sorted|
    && (forall i :: 0 <= i < |table| ==> GroupOk(sorted, table[i], len))
    && (forall i :: 0 <= i < |table| ==> table[i].start == if i == 0 then 0 else table[i - 1].end + 1)
    && len == (if table == [] then 0 else table[|table| - 1].end + 1)
    && (forall i, j :: 0 <= i < j < |table| ==> table[i].attr < table[j].attr && table[i].end < table[j].start)
  }

  ghost predicate Ascending(sorted: seq<Rec>)
  {
    forall i, j :: 0 <= i < j < |sorted| ==> sorted[i].attr <= sorted[j].attr
  }

  lemma TableGrows(sorted: seq<Rec>, table: seq<RangeMeta>, begin: nat, end: nat)
    requires TableOk(sorted, table, begin) && Ascending(sorted) && begin < end <= |sorted|
    requires forall p :: begin <= p < end ==> sorted[p].attr == sorted[begin].attr
    requires table != [] ==> table[|table| - 1].attr < sorted[begin].attr
    ensures TableOk(sorted, table + [RangeMeta(sorted[begin].attr, begin, end - 1)], end)
  {
    var table' := table + [RangeMeta(sorted[begin].attr, begin, end - 1)];
    if table != [] {
      var last := table[|table| - 1];
      assert forall i :: 0 <= i < |table| - 1 ==> table[i].attr < last.attr && table[i].end < last.start;
    }
    forall i | 0 <= i < |table'| ensures GroupOk(sorted, table'[i], end) {
      if i < |table| { assert GroupOk(sorted, table[i], begin); }
    }
  }

  lemma TableFront(sorted: seq<Rec>, table: seq<RangeMeta>, len: nat)
    requires TableOk(sorted, table, len) && table != []
    ensures table[|table| - 1].start >= 0
    ensures TableOk(sorted, table[..|table| - 1], table[|table| - 1].start)
  {
    var front, last := table[..|table| - 1], table[|table| - 1];
    assert GroupOk(sorted, last, len);
    forall i | 0 <= i < |front| ensures GroupOk(sorted, front[i], last.start) {
      assert GroupOk(sorted, table[i], len);
    }
  }

  /** Every position is in exactly one group. */
  lemma {:induction false} GroupOf(sorted: seq<Rec>, table: seq<RangeMeta>, len: nat, p: nat) returns (i: nat)
    requires TableOk(sorted, table, len) && p < len
    ensures i < |table| && table[i].start <= p <= table[i].end
  {
    var last := table[|table| - 1];
    if last.start <= p {
      i := |table| - 1;
    } else {
      TableFront(sorted, table, len);
      i := GroupOf(sorted, table[..|table| - 1], last.start, p);
    }
  }

  // ----- the two families of labels

  function I1Label(prefix: string, r: Range): string { Render([prefix + ":i1:", "-", ""], [r.lo, r.hi]) }
  function I2Label(prefix: string, r: Range): string { Render([prefix + ":i2:", "-", ""], [r.lo, r.hi]) }

  lemma RangeLabelInjective(head: string, r: Range, q: Range)
    requires Render([head, "-", ""], [r.lo, r.hi]) == Render([head, "-", ""], [q.lo, q.hi])
    ensures r == q
  {
    var ns, ms := [r.lo, r.hi], [q.lo, q.hi];
    RenderInjective([head, "-", ""], ns, ms);
    assert ns[0] == ms[0] && ns[1] == ms[1];
  }

  /** A label of one family is never a label of the other. */
  lemma LabelsApart(prefix: string, r: Range, q: Range)
    ensures I1Label(prefix, r) != I2Label(prefix, q)
  {
    var s, t := I1Label(prefix, r), I2Label(prefix, q);
    assert s[|prefix| + 2] == (prefix + ":i1:")[|prefix| + 2] == '1';
    assert t[|prefix| + 2] == (prefix + ":i2:")[|prefix| + 2] == '2';
  }

  ghost function Family(h: nat, name: Range -> string): Scheme<Range, int> {
    Scheme((r: Range) => HasRange(Initialize(h), r), name, (r: Range, v: int) => r.Has(v))
  }

  function I1Name(prefix: string): Range -> string { r => I1Label(prefix, r) }
  function I2Name(prefix: string): Range -> string { r => I2Label(prefix, r) }

  ghost function I1Family(prefix: string, h: nat): Scheme<Range, int> { Family(h, I1Name(prefix)) }
  ghost function I2Family(prefix: string, h: nat): Scheme<Range, int> { Family(h, I2Name(prefix)) }

  lemma FamiliesInjective(prefix: string, h: nat)
    ensures I1Family(prefix, h).Injective() && I2Family(prefix, h).Injective()
  {
    var s, t := I1Family(prefix, h), I2Family(prefix, h);
    forall r, q | s.valid(r) && s.valid(q) && s.name(r) == s.name(q) ensures r == q {
      RangeLabelInjective(prefix + ":i1:", r, q);
    }
    forall r, q | t.valid(r) && t.valid(q) && t.name(r) == t.name(q) ensures r == q {
      RangeLabelInjective(prefix + ":i2:", r, q);
    }
  }

  /** The names of a descent are those of the tree's ranges that have the value. */
  lemma DescentKeys(h: nat, name: Range -> string, v: int, keys: seq<string>)
    requires 0 <= v < Pow2(h) && Family(h, name).Injective()
    requires |keys| == |Path(h, 0, v)| && forall i :: 0 <= i < |keys| ==> keys[i] == name(Path(h, 0, v)[i])
    ensures Distinct(keys) && Family(h, name).NamesOf(v, set key | key in keys)
    ensures forall key :: key in keys ==> key in Family(h, name).AllNames()
  {
    var s, path := Family(h, name), Path(h, 0, v);
    InitializeIsTree(h);
    PathIsDistinct(h, 0, v);
    forall r ensures r in path <==> s.valid(r) && s.has(r, v) { DescentIsExact(Initialize(h), h, v, r); }
    forall i, j | 0 <= i < j < |keys| ensures keys[i] != keys[j] {
      assert path[i] in path && path[j] in path && s.name(path[i]) == keys[i] && s.name(path[j]) == keys[j];
    }
    forall i | 0 <= i < |keys|
      ensures keys[i] in Family(h, name).AllNames()
    {
      assert path[i] in path && s.valid(path[i]);
    }
    var names := set key | key in keys;
    forall key ensures key in names <==> exists r :: s.valid(r) && s.has(r, v) && s.name(r) == key {
      if key in names {
        var i :| 0 <= i < |keys| && keys[i] == key;
        assert path[i] in path && s.valid(path[i]) && s.name(path[i]) == key;
      }
      if r :| s.valid(r) && s.has(r, v) && s.name(r) == key {
        var i :| 0 <= i < |path| && path[i] == r;
        assert keys[i] == key;
      }
    }
  }

  /** Pushes an id under the label of every range on the descent to v. */
  method PushAlong(h: nat, name: Range -> string, v: int, id: int, ghost base: KeywordMap,
                   ghost entries: seq<Entry<int>>, m: KeywordMap)
    returns (m': KeywordMap)
    requires 0 <= v < Pow2(h) && Family(h, name).Injective() && Family(h, name).Posted(base, entries, m)
    ensures Family(h, name).Posted(base, entries + [Entry(v, [id])], m')
    ensures SameOutside(m, m', Family(h, name).AllNames())
  {
    var path := DescendTree(h, v);
    var keys := seq(|path|, i requires 0 <= i < |path| => name(path[i]));
    DescentKeys(h, name, v, keys);
    m' := PostInOrder(Family(h, name), base, entries, Entry(v, [id]), keys, m);
  }

  /** What level one holds: under each attribute range the numbers of the groups in it. */
  ghost function I1Entries(table: seq<RangeMeta>): seq<Entry<int>> {
    seq(|table|, i requires 0 <= i < |table| => Entry(table[i].attr, [i + 1]))
  }

  /** What level two holds: under each position range the records at its positions. */
  ghost function I2Entries(sorted: seq<Rec>): seq<Entry<int>> {
    seq(|sorted|, p requires 0 <= p < |sorted| => Entry(p, [sorted[p].id]))
  }

  // ----- building

  /** What level one or two holds is not touched while no label of its family is written. */
  lemma PostedKept(s: Scheme<Range, int>, base: KeywordMap, entries: seq<Entry<int>>, m: KeywordMap, m': KeywordMap)
    requires s.Posted(base, entries, m) && forall r :: Get(m', s.name(r)) == Get(m, s.name(r))
    ensures s.Posted(base, entries, m')
  {}

  /** Where the tables and trees of an index are: the prefix and heights of the two trees. */
  datatype Frame = Frame(prefix: string, attrHeight: nat, posHeight: nat, base: KeywordMap, sorted: seq<Rec>) {
    ghost predicate Fits() {
      && Ascending(sorted) && |sorted| <= Pow2(posHeight)
      && forall i :: 0 <= i < |sorted| ==> 0 <= sorted[i].attr < Pow2(attrHeight)
    }
    ghost predicate Level1(table: seq<RangeMeta>, m: KeywordMap) {
      I1Family(prefix, attrHeight).Posted(base, I1Entries(table), m)
    }
    ghost predicate Level2(len: nat, m: KeywordMap)
      requires len <= |sorted|
    {
      I2Family(prefix, posHeight).Posted(base, I2Entries(sorted[..len]), m)
    }
    /** All labels of the index. */
    ghost function Names(): iset<string> {
      I1Family(prefix, attrHeight).AllNames() + I2Family(prefix, posHeight).AllNames()
    }
  }

  method PushGroup(f: Frame, table: seq<RangeMeta>, meta: RangeMeta, m: KeywordMap, ghost len: nat)
    returns (m': KeywordMap)
    requires f.Fits() && len <= |f.sorted| && f.Level1(table, m) && f.Level2(len, m)
    requires 0 <= meta.attr < Pow2(f.attrHeight)
    ensures f.Level1(table + [meta], m') && f.Level2(len, m') && SameOutside(m, m', f.Names())
  {
    FamiliesInjective(f.prefix, f.attrHeight);
    m' := PushAlong(f.attrHeight, I1Name(f.prefix), meta.attr, |table| + 1, f.base, I1Entries(table), m);
    assert I1Entries(table + [meta]) == I1Entries(table) + [Entry(meta.attr, [|table| + 1])];
    forall r ensures Get(m', I2Label(f.prefix, r)) == Get(m, I2Label(f.prefix, r)) {
      forall q ensures I1Name(f.prefix)(q) != I2Label(f.prefix, r) { LabelsApart(f.prefix, q, r); }
      assert I2Label(f.prefix, r) !in I1Family(f.prefix, f.attrHeight).AllNames();
    }
    PostedKept(I2Family(f.prefix, f.posHeight), f.base, I2Entries(f.sorted[..len]), m, m');
  }

  method PushPosition(f: Frame, ghost table: seq<RangeMeta>, pos: nat, m: KeywordMap) returns (m': KeywordMap)
    requires f.Fits() && pos < |f.sorted| && f.Level1(table, m) && f.Level2(pos, m)
    ensures f.Level1(table, m') && f.Level2(pos + 1, m') && SameOutside(m, m', f.Names())
  {
    FamiliesInjective(f.prefix, f.posHeight);
    m' := PushAlong(f.posHeight, I2Name(f.prefix), pos, f.sorted[pos].id, f.base, I2Entries(f.sorted[..pos]), m);
    assert I2Entries(f.sorted[..pos + 1]) == I2Entries(f.sorted[..pos]) + [Entry(pos, [f.sorted[pos].id])];
    forall r ensures Get(m', I1Label(f.prefix, r)) == Get(m, I1Label(f.prefix, r)) {
      forall q ensures I2Name(f.prefix)(q) != I1Label(f.prefix, r) { LabelsApart(f.prefix, r, q); }
      assert I1Label(f.prefix, r) !in I2Family(f.prefix, f.posHeight).AllNames();
    }
    PostedKept(I1Family(f.prefix, f.attrHeight), f.base, I1Entries(table), m, m');
  }

  /** The inner loop over the positions of one group. */
  method PushPositions(f: Frame, ghost table: seq<RangeMeta>, begin: nat, end: nat, m: KeywordMap)
    returns (m': KeywordMap)
    requires f.Fits() && begin <= end <= |f.sorted| && f.Level1(table, m) && f.Level2(begin, m)
    ensures f.Level1(table, m') && f.Level2(end, m') && SameOutside(m, m', f.Names())
  {
    hide Frame.Fits, Frame.Level1, Frame.Level2, Frame.Names;
    m' := m;
    for pos := begin to end
      invariant f.Level1(table, m') && f.Level2(pos, m') && SameOutside(m, m', f.Names())
    {
      m' := PushPosition(f, table, pos, m');
    }
  }

  lemma NothingPushed(f: Frame)
    requires f.Fits()
    ensures Ascending(f.sorted) && TableOk(f.sorted, [], 0) && f.Level1([], f.base) && f.Level2(0, f.base)
  {}

  /** The end of the group of equal attributes that starts at begin. */
  method EndOfGroup(sorted: seq<Rec>, begin: nat) returns (end: nat)
    requires begin < |sorted|
    ensures begin < end <= |sorted| && forall p :: begin <= p < end ==> sorted[p].attr == sorted[begin].attr
    ensures end < |sorted| ==> sorted[end].attr != sorted[begin].attr
  {
    end := begin + 1;
    while end < |sorted| && sorted[end].attr == sorted[begin].attr
      invariant begin < end <= |sorted|
      invariant forall p :: begin <= p < end ==> sorted[p].attr == sorted[begin].attr
    {
      end := end + 1;
    }
  }

  lemma NextAttr(f: Frame, p: nat, q: nat)
    requires f.Fits() && p < q < |f.sorted|
    ensures f.sorted[p].attr <= f.sorted[q].attr
  {}

  lemma AttrFits(f: Frame, p: nat)
    requires f.Fits() && p < |f.sorted|
    ensures 0 <= f.sorted[p].attr < Pow2(f.attrHeight)
  {}

  /** The grouping loop: one table row and one level-one entry per attribute value, one
      level-two entry per record. */
  method PushGroups(f: Frame, m: KeywordMap) returns (table: seq<RangeMeta>, m': KeywordMap)
    requires f.Fits() && m == f.base
    ensures TableOk(f.sorted, table, |f.sorted|) && f.Level1(table, m') && f.Level2(|f.sorted|, m')
    ensures SameOutside(m, m', f.Names())
  {
    hide Frame.Fits, TableOk, Frame.Level1, Frame.Level2, Frame.Names, Ascending, Pow2;
    table, m' := [], m;
    NothingPushed(f);
    var begin: nat := 0;
    while begin < |f.sorted|
      invariant begin <= |f.sorted| && TableOk(f.sorted, table, begin)
      invariant table != [] && begin < |f.sorted| ==> table[|table| - 1].attr < f.sorted[begin].attr
      invariant f.Level1(table, m') && f.Level2(begin, m') && SameOutside(m, m', f.Names())
    {
      var end := EndOfGroup(f.sorted, begin);
      var meta := RangeMeta(f.sorted[begin].attr, begin, end - 1);
      AttrFits(f, begin);
      if end < |f.sorted| { NextAttr(f, begin, end); }
      TableGrows(f.sorted, table, begin, end);
      m' := PushGroup(f, table, meta, m', begin);
      table := table + [meta];
      m' := PushPositions(f, table, begin, end, m');
      begin := end;
    }
  }

  /** The largest attribute; a negative one is an error. */
  method LargestAttr(sorted: seq<Rec>) returns (maxAttr: nat, ok: bool)
    ensures ok <==> NonNegative(sorted)
    ensures ok ==> forall p :: 0 <= p < |sorted| ==> 0 <= sorted[p].attr <= maxAttr
    ensures ok && sorted != [] ==> exists p :: 0 <= p < |sorted| && sorted[p].attr == maxAttr
  {
    maxAttr := 0;
    ghost var at := 0;
    for i := 0 to |sorted|
      invariant forall p :: 0 <= p < i ==> 0 <= sorted[p].attr <= maxAttr
      invariant if i == 0 then maxAttr == 0 else 0 <= at < i && sorted[at].attr == maxAttr
    {
      if sorted[i].attr < 0 {
        assert sorted[i] in sorted;
        return 0, false;
      }
      if i == 0 || maxAttr < sorted[i].attr { at := i; }
      maxAttr := Max(maxAttr, sorted[i].attr);
    }
    ok := true;
  }

  datatype Trees = NoTrees | Trees(attrHeight: nat, posHeight: nat)

  ghost predicate NonNegative(recs: seq<Rec>) { forall r :: r in recs ==> r.attr >= 0 }

  /** The lowest trees that have room for the attributes and the positions. */
  function TreesFor(sorted: seq<Rec>): Trees
    requires NonNegative(sorted)
  {
    if sorted == [] then NoTrees
    else Trees(LevelFor(sorted[|sorted| - 1].attr + 1, 0), LevelFor(|sorted|, 0))
  }

  /** The keyword map holds the index of some records on top of what base had, and nothing else
      has changed. */
  ghost predicate IndexIn(base: KeywordMap, prefix: string, trees: Trees, sorted: seq<Rec>, table: seq<RangeMeta>,
                          m: KeywordMap) {
    match trees
    case NoTrees => m == base
    case Trees(attrHeight, posHeight) =>
      var f := Frame(prefix, attrHeight, posHeight, base, sorted);
      f.Level1(table, m) && f.Level2(|sorted|, m) && SameOutside(base, m, f.Names())
  }

  class LogarithmicSrcI1Index {
    var prefix: string
    var trees: Trees
    var rangeTable: seq<RangeMeta>
    var entryCount: nat
    /** The records in the order of their positions. */
    ghost var sorted: seq<Rec>

    constructor ()
      ensures Valid() && trees == NoTrees
    {
      prefix, trees, rangeTable, entryCount, sorted := "", NoTrees, [], 0, [];
    }

    ghost predicate Valid()
      reads this
    {
      && entryCount == |sorted| && (trees == NoTrees <==> sorted == [])
      && TableOk(sorted, rangeTable, |sorted|)
      && (trees.Trees? ==> Frame(prefix, trees.attrHeight, trees.posHeight, map[], sorted).Fits())
    }

    /** The keyword map holds the index on top of what base had under its labels. */
    ghost predicate Holds(base: KeywordMap, m: KeywordMap)
      reads this
    {
      IndexIn(base, prefix, trees, sorted, rangeTable, m)
    }

    /** Builds the index of some records into the keyword map; a negative attribute throws and
        leaves the map as it was. */
    method Build(recs: seq<Rec>, m: KeywordMap, labelPrefix: string) returns (m': KeywordMap, ok: bool)
      modifies this
      ensures ok <==> NonNegative(recs)
      ensures ok ==> Valid() && Holds(m, m') && prefix == labelPrefix && Arranged(recs, sorted)
      ensures ok ==> NonNegative(sorted) && trees == TreesFor(sorted)
      ensures trees.Trees? && ok ==>
                LowestFor(sorted[|sorted| - 1].attr + 1, trees.attrHeight) && LowestFor(|sorted|, trees.posHeight)
      ensures !ok ==> m' == m
    {
      hide Pow2, Arrange, InOrder, Ascending, LowestFor, Frame.Level1, Frame.Level2, Frame.Names;
      hide SameOutside, TableOk, LevelFor, Frame.Fits;
      prefix, rangeTable, entryCount := labelPrefix, [], |recs|;
      if recs == [] {
        trees, sorted := NoTrees, [];
        NothingArranged();
        ArrangeExact(recs);
        return m, true;
      }
      var arranged := Arrange(recs);
      ArrangeExact(recs);
      AscendingAttrs(recs);
      SameMembers(recs, arranged);
      var maxAttr, fine := LargestAttr(arranged);
      if !fine { return m, false; }
      LastIsLargest(arranged, maxAttr);
      TreesFit(prefix, m, arranged);
      TreesLowest(arranged);
      trees, sorted := Trees(LevelFor(maxAttr + 1, 0), LevelFor(|arranged|, 0)), arranged;
      var f := Frame(prefix, trees.attrHeight, trees.posHeight, m, arranged);
      rangeTable, m' := PushGroups(f, m);
      ok := true;
    }
  }

  /** The trees for some records have room for them. */
  lemma TreesFit(prefix: string, m: KeywordMap, sorted: seq<Rec>)
    requires Ascending(sorted) && NonNegative(sorted) && sorted != []
    ensures TreesFor(sorted).Trees?
    ensures Frame(prefix, TreesFor(sorted).attrHeight, TreesFor(sorted).posHeight, m, sorted).Fits()
    ensures Frame(prefix, TreesFor(sorted).attrHeight, TreesFor(sorted).posHeight, map[], sorted).Fits()
  {
    LevelForIsLeast(sorted[|sorted| - 1].attr + 1, 0);
    LevelForIsLeast(|sorted|, 0);
  }

  lemma TreesLowest(sorted: seq<Rec>)
    requires NonNegative(sorted) && sorted != []
    ensures var trees := TreesFor(sorted);
            && trees.Trees? && LowestFor(sorted[|sorted| - 1].attr + 1, trees.attrHeight)
            && LowestFor(|sorted|, trees.posHeight)
  {
    LevelForIsLeast(sorted[|sorted| - 1].attr + 1, 0);
    LevelForIsLeast(|sorted|, 0);
  }

  lemma NothingArranged()
    ensures Arrange([]) == [] && TableOk([], [], 0)
  {}

  lemma LastIsLargest(sorted: seq<Rec>, maxAttr: int)
    requires Ascending(sorted) && sorted != [] && forall p :: 0 <= p < |sorted| ==> sorted[p].attr <= maxAttr
    requires exists p :: 0 <= p < |sorted| && sorted[p].attr == maxAttr
    ensures sorted[|sorted| - 1].attr == maxAttr
  {
    var p :| 0 <= p < |sorted| && sorted[p].attr == maxAttr;
    assert p < |sorted| - 1 ==> sorted[p].attr <= sorted[|sorted| - 1].attr;
  }

  lemma AscendingAttrs(recs: seq<Rec>)
    ensures Ascending(Arrange(recs)) && |Arrange(recs)| == |recs|
  {
    ArrangeExact(recs);
  }

  lemma SameMembers(s: seq<Rec>, t: seq<Rec>)
    requires multiset(s) == multiset(t)
    ensures forall r :: r in s <==> r in t
  {
    forall r ensures r in s <==> r in t {
      assert r in s <==> r in multiset(s);
      assert r in t <==> r in multiset(t);
    }
  }
}
