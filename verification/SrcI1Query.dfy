/** Querying the two-level index: the groups level one returns are filtered, merged into
    intervals of positions, and looked up in level two. */
module SrcI1Query {
  import opened Arith
  import opened Emm
  import opened Postings
  import opened Sequences
  import opened Sorting
  import opened SrcI1
  import opened Tdags

  // ----- merging intervals

  ghost predicate CoveredBy(rs: seq<Range>, p: int) { exists i :: 0 <= i < |rs| && rs[i].Has(p) }

  /** Non-empty intervals in increasing order with a gap between any two. */
  ghost predicate NormalForm(rs: seq<Range>) {
    && (forall i :: 0 <= i < |rs| ==> rs[i].lo <= rs[i].hi)
    && (forall i, j :: 0 <= i < j < |rs| ==> rs[i].hi + 1 < rs[j].lo)
  }

  function RangeKey(r: Range): Key { (r.lo, r.hi) }

  lemma CoveredAppend(rs: seq<Range>, r: Range, p: int)
    ensures CoveredBy(rs + [r], p) <==> CoveredBy(rs, p) || r.Has(p)
  {
    if CoveredBy(rs, p) {
      var i :| 0 <= i < |rs| && rs[i].Has(p);
      assert (rs + [r])[i].Has(p);
    }
    if r.Has(p) { assert (rs + [r])[|rs|].Has(p); }
  }

  /** The merge loop: intervals that touch or overlap become one; no position is gained or lost. */
  method Merge(ranges: seq<Range>) returns (merged: seq<Range>)
    requires SortedBy(RangeKey, ranges) && forall i :: 0 <= i < |ranges| ==> ranges[i].lo <= ranges[i].hi
    ensures NormalForm(merged)
    ensures forall p :: CoveredBy(merged, p) <==> CoveredBy(ranges, p)
  {
    if ranges == [] { return []; }
    merged := [ranges[0]];
    for i := 1 to |ranges|
      invariant merged != [] && NormalForm(merged)
      invariant merged[|merged| - 1].lo <= ranges[i - 1].lo
      invariant forall p :: CoveredBy(merged, p) <==> CoveredBy(ranges[..i], p)
    {
      var front, last, next := merged[..|merged| - 1], merged[|merged| - 1], ranges[i];
      assert ranges[..i + 1] == ranges[..i] + [next] && merged == front + [last];
      assert Before(RangeKey(ranges[i - 1]), RangeKey(next));
      ghost var before := merged;
      if next.lo <= last.hi + 1 {
        var wider := Range(last.lo, if last.hi >= next.hi then last.hi else next.hi);
        merged := merged[|merged| - 1 := wider];
        assert merged == front + [wider];
        forall p ensures CoveredBy(merged, p) <==> CoveredBy(ranges[..i + 1], p) {
          CoveredAppend(front, wider, p);
          CoveredAppend(front, last, p);
          CoveredAppend(ranges[..i], next, p);
        }
      } else {
        merged := merged + [next];
        forall p ensures CoveredBy(merged, p) <==> CoveredBy(ranges[..i + 1], p) {
          CoveredAppend(before, next, p);
          CoveredAppend(ranges[..i], next, p);
        }
      }
    }
    assert ranges[..|ranges|] == ranges;
  }

  /** A normal form that covers one interval is that interval. */
  lemma SingleInterval(rs: seq<Range>, lo: int, hi: int)
    requires NormalForm(rs) && lo <= hi && forall p :: CoveredBy(rs, p) <==> lo <= p <= hi
    ensures rs == [Range(lo, hi)]
  {
    assert CoveredBy(rs, lo);
    var i :| 0 <= i < |rs| && rs[i].Has(lo);
    EndsCovered(rs, i);
    GapAfter(rs, i);
    if |rs| > 1 {
      var j := if i == 0 then 1 else 0;
      EndsCovered(rs, j);
    }
  }

  lemma GapAfter(rs: seq<Range>, i: nat)
    requires NormalForm(rs) && i < |rs|
    ensures !CoveredBy(rs, rs[i].hi + 1)
  {
    forall j | 0 <= j < |rs| ensures !rs[j].Has(rs[i].hi + 1) {
      assert rs[j].lo <= rs[j].hi;
    }
  }

  lemma EndsCovered(rs: seq<Range>, i: nat)
    requires i < |rs| && rs[i].lo <= rs[i].hi
    ensures CoveredBy(rs, rs[i].lo) && CoveredBy(rs, rs[i].hi)
  {
    assert rs[i].Has(rs[i].lo) && rs[i].Has(rs[i].hi);
  }

  // ----- filtering groups

  /** Group number i + 1 was asked for and its attribute is in [a, b]. */
  ghost predicate Wanted(table: seq<RangeMeta>, ids: seq<int>, a: int, b: int, i: nat) {
    i < |table| && i + 1 in ids && a <= table[i].attr <= b
  }

  ghost predicate InWanted(table: seq<RangeMeta>, ids: seq<int>, a: int, b: int, p: int) {
    exists i: nat :: Wanted(table, ids, a, b, i) && table[i].start <= p <= table[i].end
  }

  /** The filter loop: unknown group numbers, repeated ones and other attributes are skipped. */
  method Filter(table: seq<RangeMeta>, ids: seq<int>, a: int, b: int) returns (ranges: seq<Range>)
    requires forall i :: 0 <= i < |table| ==> table[i].start <= table[i].end
    ensures forall i :: 0 <= i < |ranges| ==> ranges[i].lo <= ranges[i].hi
    ensures forall p :: CoveredBy(ranges, p) <==> InWanted(table, ids, a, b, p)
  {
    ranges := [];
    var seen: set<int> := {};
    for k := 0 to |ids|
      invariant forall i :: 0 <= i < |ranges| ==> ranges[i].lo <= ranges[i].hi
      invariant forall id :: id in seen <==> 0 < id <= |table| && id in ids[..k]
      invariant forall p :: CoveredBy(ranges, p) <==> InWanted(table, ids[..k], a, b, p)
    {
      var id := ids[k];
      assert ids[..k + 1] == ids[..k] + [id];
      ghost var before := ranges;
      if 0 < id <= |table| && id !in seen {
        seen := seen + {id};
        var meta := table[id - 1];
        if a <= meta.attr <= b {
          ranges := ranges + [Range(meta.start, meta.end)];
        }
      }
      forall p ensures CoveredBy(ranges, p) <==> InWanted(table, ids[..k + 1], a, b, p) {
        if ranges != before { CoveredAppend(before, ranges[|ranges| - 1], p); }
        WantedAppend(table, ids[..k], id, a, b, p);
      }
    }
    assert ids[..|ids|] == ids;
  }

  lemma WantedAppend(table: seq<RangeMeta>, ids: seq<int>, id: int, a: int, b: int, p: int)
    ensures InWanted(table, ids + [id], a, b, p) <==>
            InWanted(table, ids, a, b, p)
            || (0 < id <= |table| && a <= table[id - 1].attr <= b && table[id - 1].start <= p <= table[id - 1].end)
  {
    if InWanted(table, ids, a, b, p) {
      var i: nat :| Wanted(table, ids, a, b, i) && table[i].start <= p <= table[i].end;
      assert Wanted(table, ids + [id], a, b, i);
    }
    if 0 < id <= |table| && a <= table[id - 1].attr <= b && table[id - 1].start <= p <= table[id - 1].end {
      assert Wanted(table, ids + [id], a, b, id - 1);
    }
    if InWanted(table, ids + [id], a, b, p) {
      var i: nat :| Wanted(table, ids + [id], a, b, i) && table[i].start <= p <= table[i].end;
      assert i + 1 != id ==> Wanted(table, ids, a, b, i);
    }
  }

  lemma SortedRanges(ranges: seq<Range>, sorted: seq<Range>)
    requires sorted == Sort(RangeKey, ranges) && forall i :: 0 <= i < |ranges| ==> ranges[i].lo <= ranges[i].hi
    ensures SortedBy(RangeKey, sorted) && forall i :: 0 <= i < |sorted| ==> sorted[i].lo <= sorted[i].hi
    ensures forall p :: CoveredBy(sorted, p) <==> CoveredBy(ranges, p)
  {
    SortSorts(RangeKey, ranges);
    forall r ensures r in sorted <==> r in ranges {
      assert r in sorted <==> r in multiset(sorted);
      assert r in ranges <==> r in multiset(ranges);
    }
    forall i | 0 <= i < |sorted| ensures sorted[i].lo <= sorted[i].hi { assert sorted[i] in ranges; }
    forall p ensures CoveredBy(sorted, p) <==> CoveredBy(ranges, p) {
      if i :| 0 <= i < |sorted| && sorted[i].Has(p) { assert sorted[i] in ranges; }
      if i :| 0 <= i < |ranges| && ranges[i].Has(p) { assert ranges[i] in sorted; }
    }
  }

  /** The wanted groups as intervals of positions in normal form. */
  method FilterAndMerge(table: seq<RangeMeta>, ids: seq<int>, a: int, b: int) returns (merged: seq<Range>)
    requires forall i :: 0 <= i < |table| ==> table[i].start <= table[i].end
    ensures NormalForm(merged)
    ensures forall p :: CoveredBy(merged, p) <==> InWanted(table, ids, a, b, p)
  {
    var ranges := Filter(table, ids, a, b);
    SortedRanges(ranges, Sort(RangeKey, ranges));
    merged := Merge(Sort(RangeKey, ranges));
  }

  // ----- the matching positions are one interval

  ghost predicate Matches(sorted: seq<Rec>, a: int, b: int, p: int) { 0 <= p < |sorted| && a <= sorted[p].attr <= b }

  /** Every group with an attribute in [a, b] is among the ids. */
  ghost predicate Complete(table: seq<RangeMeta>, ids: seq<int>, a: int, b: int) {
    forall i :: 0 <= i < |table| && a <= table[i].attr <= b ==> i + 1 in ids
  }

  lemma WantedAreMatches(sorted: seq<Rec>, table: seq<RangeMeta>, ids: seq<int>, a: int, b: int, p: int)
    requires TableOk(sorted, table, |sorted|) && Complete(table, ids, a, b)
    ensures InWanted(table, ids, a, b, p) <==> Matches(sorted, a, b, p)
  {
    if InWanted(table, ids, a, b, p) {
      var i: nat :| Wanted(table, ids, a, b, i) && table[i].start <= p <= table[i].end;
      assert GroupOk(sorted, table[i], |sorted|);
    }
    if Matches(sorted, a, b, p) {
      var i := GroupOf(sorted, table, |sorted|, p);
      assert GroupOk(sorted, table[i], |sorted|);
      assert Wanted(table, ids, a, b, i);
    }
  }

  /** The intervals are exactly the matching positions: none, or one interval. */
  lemma MatchesMerged(sorted: seq<Rec>, table: seq<RangeMeta>, ids: seq<int>, a: int, b: int, merged: seq<Range>)
    requires Ascending(sorted) && TableOk(sorted, table, |sorted|) && Complete(table, ids, a, b)
    requires NormalForm(merged) && forall p :: CoveredBy(merged, p) <==> InWanted(table, ids, a, b, p)
    ensures merged == [] <==> forall p :: !Matches(sorted, a, b, p)
    ensures merged != [] ==> |merged| == 1 && forall p :: merged[0].Has(p) <==> Matches(sorted, a, b, p)
  {
    forall p ensures CoveredBy(merged, p) <==> Matches(sorted, a, b, p) {
      WantedAreMatches(sorted, table, ids, a, b, p);
    }
    if merged != [] {
      var first, last := merged[0], merged[|merged| - 1];
      assert first.Has(first.lo) && last.Has(last.hi);
      assert CoveredBy(merged, first.lo) && CoveredBy(merged, last.hi);
      forall p ensures CoveredBy(merged, p) <==> first.lo <= p <= last.hi {
        if CoveredBy(merged, p) {
          var i :| 0 <= i < |merged| && merged[i].Has(p);
          assert i > 0 ==> first.hi + 1 < merged[i].lo;
          assert i < |merged| - 1 ==> merged[i].hi + 1 < last.lo;
        }
      }
      SingleInterval(merged, first.lo, last.hi);
    } else {
      forall p ensures !Matches(sorted, a, b, p) { assert !CoveredBy(merged, p); }
    }
  }

  // ----- labels

  function Clamped(r: Range, h: nat): Range {
    Range(if r.lo >= 0 then r.lo else 0, if r.hi <= Pow2(h) - 1 then r.hi else Pow2(h) - 1)
  }

  /** The range of the tree that covers a query inside it. */
  function CoverOf(h: nat, r: Range): Range {
    match SingleRangeCover(Initialize(h), r)
    case NoCover => NONE
    case Found(c) => c
  }

  lemma CoverOfInside(h: nat, r: Range)
    requires 0 <= r.lo <= r.hi < Pow2(h)
    ensures HasRange(Initialize(h), CoverOf(h, r)) && CoverOf(h, r).Contains(r)
    ensures forall q :: HasRange(Initialize(h), q) && q.Contains(r) ==> CoverOf(h, r).Length() <= q.Length()
  {
    InitializeIsTree(h);
    CoverExists(Initialize(h), h, r);
    SingleRangeCoverIsShortest(Initialize(h), h, r, CoverOf(h, r));
  }

  /** The value is in the tree and asked for. */
  predicate InQuery(h: nat, a: int, b: int, v: int) { 0 <= v < Pow2(h) && a <= v <= b }

  ghost predicate HasQuery(h: nat, a: int, b: int, c: Range) { forall v :: InQuery(h, a, b, v) ==> c.Has(v) }

  /** A shortest range of the tree that has every value asked for. */
  ghost predicate ShortestFor(h: nat, a: int, b: int, c: Range) {
    && HasRange(Initialize(h), c) && HasQuery(h, a, b, c)
    && forall r :: HasRange(Initialize(h), r) && HasQuery(h, a, b, r) ==> c.Length() <= r.Length()
  }

  /** The labels of a level-one query: that of a shortest range with all values asked for; none if
      the tree has no such value. */
  ghost predicate Level1Labels(prefix: string, h: nat, a: int, b: int, labels: seq<string>) {
    if forall v :: !InQuery(h, a, b, v) then labels == []
    else exists c :: ShortestFor(h, a, b, c) && labels == [I1Label(prefix, c)]
  }

  lemma ClampedIsQuery(h: nat, a: int, b: int, v: int)
    ensures Clamped(Range(a, b), h).Has(v) <==> InQuery(h, a, b, v)
  {}

  lemma ClampedCover(h: nat, a: int, b: int)
    ensures var r := Clamped(Range(a, b), h);
            && (r.lo > r.hi ==> forall v :: !InQuery(h, a, b, v))
            && (r.lo <= r.hi ==> InQuery(h, a, b, r.lo) && ShortestFor(h, a, b, CoverOf(h, r)))
  {
    hide CoverOf, HasRange;
    var r := Clamped(Range(a, b), h);
    forall v ensures r.Has(v) <==> InQuery(h, a, b, v) { ClampedIsQuery(h, a, b, v); }
    if r.lo <= r.hi {
      assert r.Has(r.lo) && r.Has(r.hi);
      CoverOfInside(h, r);
      forall q | HasRange(Initialize(h), q) && HasQuery(h, a, b, q) ensures CoverOf(h, r).Length() <= q.Length() {
        assert q.Has(r.lo) && q.Has(r.hi);
      }
    }
  }

  /** The level-one label of an attribute query. */
  method GetI1QueryLabels(index: LogarithmicSrcI1Index, a: int, b: int) returns (labels: seq<string>)
    requires index.Valid()
    ensures index.trees == NoTrees ==> labels == []
    ensures index.trees.Trees? ==> Level1Labels(index.prefix, index.trees.attrHeight, a, b, labels)
  {
    hide CoverOf, HasRange, ShortestFor;
    if index.trees == NoTrees || a > b { return []; }
    var r := Clamped(Range(a, b), index.trees.attrHeight);
    ClampedCover(index.trees.attrHeight, a, b);
    if r.lo > r.hi { return []; }
    labels := [I1Label(index.prefix, CoverOf(index.trees.attrHeight, r))];
  }

  /** The level-two labels of some position intervals, each label once. */
  method GetI2QueryLabels(index: LogarithmicSrcI1Index, ranges: seq<Range>) returns (labels: seq<string>)
    requires index.Valid()
    ensures index.trees == NoTrees ==> labels == []
    ensures index.trees.Trees? ==> Level2Labels(index.prefix, index.trees.posHeight, ranges, labels)
  {
    labels := [];
    if index.trees == NoTrees { return; }
    var h := index.trees.posHeight;
    for i := 0 to |ranges|
      invariant Distinct(labels)
      invariant forall key :: key in labels <==> exists k :: 0 <= k < i && AsksFor(index.prefix, h, ranges[k], key)
    {
      var r := Clamped(ranges[i], h);
      if r.lo > r.hi { continue; }
      var key := I2Label(index.prefix, CoverOf(h, r));
      assert AsksFor(index.prefix, h, ranges[i], key);
      if key !in labels { labels := labels + [key]; }
    }
  }

  predicate AsksFor(prefix: string, h: nat, range: Range, key: string) {
    var r := Clamped(range, h);
    r.lo <= r.hi && key == I2Label(prefix, CoverOf(h, r))
  }

  // ----- end to end

  /** No label of the index was in the map before. */
  ghost predicate FreshLabels(prefix: string, base: KeywordMap) {
    forall r :: Get(base, I1Label(prefix, r)) == [] && Get(base, I2Label(prefix, r)) == []
  }

  /** What level one returns for [a, b]. */
  ghost predicate Level1Answer(f: Frame, m: KeywordMap, a: int, b: int, ids: seq<int>) {
    exists labels :: Level1Labels(f.prefix, f.attrHeight, a, b, labels) && multiset(ids) == Bag(m, labels)
  }

  lemma Level1Has(f: Frame, table: seq<RangeMeta>, m: KeywordMap, c: Range, i: nat)
    requires f.Level1(table, m) && i < |table| && HasRange(Initialize(f.attrHeight), c) && c.Has(table[i].attr)
    ensures i + 1 in Get(m, I1Label(f.prefix, c))
  {
    var s := I1Family(f.prefix, f.attrHeight);
    IdsInHas(s, I1Entries(table), c, i);
    assert i + 1 in I1Entries(table)[i].ids;
    assert Get(m, s.name(c)) == Get(f.base, s.name(c)) + s.IdsIn(I1Entries(table), c);
  }

  /** Level one returns every group with an attribute in the queried range. */
  lemma Level1Complete(f: Frame, table: seq<RangeMeta>, m: KeywordMap, a: int, b: int, ids: seq<int>)
    requires f.Fits() && TableOk(f.sorted, table, |f.sorted|) && f.Level1(table, m) && Level1Answer(f, m, a, b, ids)
    ensures Complete(table, ids, a, b)
  {
    hide I1Label, Frame.Level1, HasRange;
    var labels :| Level1Labels(f.prefix, f.attrHeight, a, b, labels) && multiset(ids) == Bag(m, labels);
    forall i | 0 <= i < |table| && a <= table[i].attr <= b ensures i + 1 in ids {
      assert GroupOk(f.sorted, table[i], |f.sorted|);
      assert table[i].attr == f.sorted[table[i].start].attr;
      assert InQuery(f.attrHeight, a, b, table[i].attr);
      var c :| ShortestFor(f.attrHeight, a, b, c) && labels == [I1Label(f.prefix, c)];
      Level1Has(f, table, m, c, i);
      BagOfOne(m, labels[0]);
      assert i + 1 in multiset(ids);
    }
  }

  /** The ids of the records at the positions in c, in order. */
  ghost function IdsAt(sorted: seq<Rec>, c: Range): seq<int> {
    if sorted == [] then []
    else IdsAt(sorted[..|sorted| - 1], c) + if c.Has(|sorted| - 1) then [sorted[|sorted| - 1].id] else []
  }

  lemma {:induction false} Level2Ids(s: Scheme<Range, int>, sorted: seq<Rec>, c: Range)
    requires forall r: Range, v :: s.has(r, v) == r.Has(v)
    ensures s.IdsIn(I2Entries(sorted), c) == IdsAt(sorted, c)
  {
    if sorted != [] {
      var front := sorted[..|sorted| - 1];
      assert I2Entries(sorted)[..|sorted| - 1] == I2Entries(front);
      Level2Ids(s, front, c);
    }
  }

  lemma {:induction false} IdsAtHas(sorted: seq<Rec>, c: Range, p: nat)
    requires p < |sorted| && c.Has(p)
    ensures sorted[p].id in IdsAt(sorted, c)
  {
    if p < |sorted| - 1 { IdsAtHas(sorted[..|sorted| - 1], c, p); }
  }

  /** What level two returns for some intervals of positions. */
  ghost predicate Level2Labels(prefix: string, h: nat, ranges: seq<Range>, labels: seq<string>) {
    && Distinct(labels)
    && forall key :: key in labels <==> exists k :: 0 <= k < |ranges| && AsksFor(prefix, h, ranges[k], key)
  }

  /** One interval asks for one label. */
  lemma OneLabel(prefix: string, h: nat, r: Range, labels: seq<string>)
    requires Level2Labels(prefix, h, [r], labels) && 0 <= r.lo <= r.hi < Pow2(h)
    ensures labels == [I2Label(prefix, CoverOf(h, r))]
  {
    var key := I2Label(prefix, CoverOf(h, r));
    assert AsksFor(prefix, h, [r][0], key);
    assert key in labels && (|labels| > 1 ==> labels[0] != labels[1]);
    forall i | 0 <= i < |labels| ensures labels[i] == key { assert labels[i] in labels; }
  }

  lemma NoLabels(prefix: string, h: nat, labels: seq<string>)
    requires Level2Labels(prefix, h, [], labels)
    ensures labels == []
  {
    HasFirst(labels);
  }

  lemma HasFirst(labels: seq<string>)
    ensures labels != [] ==> exists key :: key in labels
  {
    if labels != [] { assert labels[0] in labels; }
  }

  /** Level two returns, for an interval of positions, the records at the positions of the
      tree range that covers it. */
  lemma Level2Answer(f: Frame, m: KeywordMap, r: Range)
    requires f.Fits() && f.Level2(|f.sorted|, m) && FreshLabels(f.prefix, f.base) && 0 <= r.lo <= r.hi < |f.sorted|
    ensures Get(m, I2Label(f.prefix, CoverOf(f.posHeight, r))) == IdsAt(f.sorted, CoverOf(f.posHeight, r))
  {
    CoverOfInside(f.posHeight, r);
    var c, s := CoverOf(f.posHeight, r), I2Family(f.prefix, f.posHeight);
    assert s.valid(c) && f.sorted[..|f.sorted|] == f.sorted;
    Level2Ids(s, f.sorted, c);
    assert Get(m, s.name(c)) == Get(f.base, s.name(c)) + s.IdsIn(I2Entries(f.sorted), c);
  }

  /** The shortest range of a tree that has every matching position. */
  ghost predicate ShortestCover(h: nat, sorted: seq<Rec>, a: int, b: int, c: Range) {
    && HasRange(Initialize(h), c) && HasMatches(sorted, a, b, c)
    && forall r :: HasRange(Initialize(h), r) && HasMatches(sorted, a, b, r) ==> c.Length() <= r.Length()
  }

  ghost predicate HasMatches(sorted: seq<Rec>, a: int, b: int, c: Range) {
    forall p :: Matches(sorted, a, b, p) ==> c.Has(p)
  }

  lemma CoverOfMatches(h: nat, sorted: seq<Rec>, a: int, b: int, r: Range)
    requires 0 <= r.lo <= r.hi < |sorted| <= Pow2(h) && forall p :: r.Has(p) <==> Matches(sorted, a, b, p)
    ensures ShortestCover(h, sorted, a, b, CoverOf(h, r))
  {
    hide CoverOf, HasRange, Matches;
    var c := CoverOf(h, r);
    CoverOfInside(h, r);
    forall q | HasRange(Initialize(h), q) && HasMatches(sorted, a, b, q) ensures c.Length() <= q.Length() {
      assert r.Has(r.lo) && r.Has(r.hi);
      assert q.Has(r.lo) && q.Has(r.hi);
    }
  }

  /** The answer to a query: nothing when nothing matches; otherwise the bag of the records at
      the positions of the shortest tree range that has every matching position. */
  ghost predicate QueryAnswer(f: Frame, a: int, b: int, ids: seq<int>) {
    if forall p :: !Matches(f.sorted, a, b, p) then ids == []
    else exists c :: ShortestCover(f.posHeight, f.sorted, a, b, c) && multiset(ids) == multiset(IdsAt(f.sorted, c))
  }

  lemma AnswerOf(f: Frame, m: KeywordMap, a: int, b: int, ranges: seq<Range>, labels: seq<string>, ids: seq<int>)
    requires f.Fits() && f.Level2(|f.sorted|, m) && FreshLabels(f.prefix, f.base)
    requires ranges == [] <==> forall p :: !Matches(f.sorted, a, b, p)
    requires ranges != [] ==> |ranges| == 1 && forall p :: ranges[0].Has(p) <==> Matches(f.sorted, a, b, p)
    requires ranges != [] ==> 0 <= ranges[0].lo <= ranges[0].hi < |f.sorted|
    requires Level2Labels(f.prefix, f.posHeight, ranges, labels) && multiset(ids) == Bag(m, labels)
    ensures QueryAnswer(f, a, b, ids)
  {
    if ranges == [] {
      NoLabels(f.prefix, f.posHeight, labels);
      assert |multiset(ids)| == 0;
    } else {
      var r := ranges[0];
      assert ranges == [r] && r.Has(r.lo) && r.Has(r.hi);
      OneLabel(f.prefix, f.posHeight, r, labels);
      BagOfOne(m, labels[0]);
      Level2Answer(f, m, r);
      CoverOfMatches(f.posHeight, f.sorted, a, b, r);
    }
  }

  /** The interval of the matching positions lies in the tree of positions. */
  lemma OneInterval(f: Frame, a: int, b: int, ranges: seq<Range>)
    requires f.Fits() && NormalForm(ranges)
    requires ranges != [] ==> |ranges| == 1 && forall p :: ranges[0].Has(p) <==> Matches(f.sorted, a, b, p)
    ensures ranges != [] ==> 0 <= ranges[0].lo <= ranges[0].hi < |f.sorted| <= Pow2(f.posHeight)
  {
    if ranges != [] { assert ranges[0].Has(ranges[0].lo) && ranges[0].Has(ranges[0].hi); }
  }

  /** What filtering and merging the groups of level one leaves: nothing, or the interval of the
      matching positions. */
  lemma GroupsMerged(f: Frame, table: seq<RangeMeta>, m: KeywordMap, a: int, b: int, ids: seq<int>, ranges: seq<Range>)
    requires f.Fits() && TableOk(f.sorted, table, |f.sorted|) && f.Level1(table, m)
    requires Level1Answer(f, m, a, b, ids)
    requires NormalForm(ranges) && forall p :: CoveredBy(ranges, p) <==> InWanted(table, ids, a, b, p)
    ensures ranges == [] <==> forall p :: !Matches(f.sorted, a, b, p)
    ensures ranges != [] ==> |ranges| == 1 && forall p :: ranges[0].Has(p) <==> Matches(f.sorted, a, b, p)
    ensures ranges != [] ==> 0 <= ranges[0].lo <= ranges[0].hi < |f.sorted| <= Pow2(f.posHeight)
  {
    Level1Complete(f, table, m, a, b, ids);
    MatchesMerged(f.sorted, table, ids, a, b, ranges);
    OneInterval(f, a, b, ranges);
  }

  lemma FitsAnyBase(f: Frame, base: KeywordMap)
    requires f.Fits()
    ensures f.(base := base).Fits()
  {}

  /** No match is lost. */
  lemma NoMatchLost(f: Frame, a: int, b: int, ids: seq<int>, p: nat)
    requires QueryAnswer(f, a, b, ids) && Matches(f.sorted, a, b, p)
    ensures f.sorted[p].id in ids
  {
    var c :| ShortestCover(f.posHeight, f.sorted, a, b, c) && multiset(ids) == multiset(IdsAt(f.sorted, c));
    IdsAtHas(f.sorted, c, p);
    assert f.sorted[p].id in multiset(ids);
  }

  /** The label of any range of either tree can be looked up without a collision. */
  ghost predicate LookupsApart(s: EmmKeys, m: KeywordMap, prefix: string, trees: Trees) {
    && Apart(s, m, {})
    && (trees.Trees? ==>
          forall r, q :: HasRange(Initialize(trees.attrHeight), r) && HasRange(Initialize(trees.posHeight), q) ==>
            Apart(s, m, {I1Label(prefix, r), I2Label(prefix, q)}))
  }

  lemma Labels1Apart(s: EmmKeys, m: KeywordMap, prefix: string, trees: Trees, a: int, b: int, labels: seq<string>)
    requires LookupsApart(s, m, prefix, trees)
    requires if trees == NoTrees then labels == [] else Level1Labels(prefix, trees.attrHeight, a, b, labels)
    ensures Distinct(labels) && Apart(s, m, set k | k in labels)
  {
    hide Apart, CoverOf, HasRange, I1Label, I2Label;
    if labels == [] {
      assert (set k | k in labels) == {};
    } else {
      var r :| ShortestFor(trees.attrHeight, a, b, r) && labels == [I1Label(prefix, r)];
      var q := Initialize(trees.posHeight).range;
      RootRange(trees.posHeight);
      FewerApart(s, m, {I1Label(prefix, r), I2Label(prefix, q)}, set k | k in labels);
    }
  }

  lemma RootRange(h: nat)
    ensures HasRange(Initialize(h), Initialize(h).range)
  {}

  lemma Labels2Apart(s: EmmKeys, m: KeywordMap, prefix: string, trees: Trees, ranges: seq<Range>, labels: seq<string>)
    requires LookupsApart(s, m, prefix, trees) && trees.Trees? && Level2Labels(prefix, trees.posHeight, ranges, labels)
    requires ranges == [] || (|ranges| == 1 && 0 <= ranges[0].lo <= ranges[0].hi < Pow2(trees.posHeight))
    ensures Distinct(labels) && Apart(s, m, set k | k in labels)
  {
    hide Apart, CoverOf, HasRange, I1Label, I2Label, Level2Labels;
    if ranges == [] {
      NoLabels(prefix, trees.posHeight, labels);
      assert (set k | k in labels) == {};
    } else {
      var h := trees.posHeight;
      assert ranges == [ranges[0]];
      OneLabel(prefix, h, ranges[0], labels);
      CoverOfInside(h, ranges[0]);
      RootRange(trees.attrHeight);
      FewerApart(s, m, {I1Label(prefix, Initialize(trees.attrHeight).range), I2Label(prefix, CoverOf(h, ranges[0]))},
                 set k | k in labels);
    }
  }

  /** A whole query through the encrypted multimap: level one, filter and merge, level two. */
  method RunQuery(index: LogarithmicSrcI1Index, emm: StandardEmm, ghost m: KeywordMap, ghost base: KeywordMap, a: int,
                  b: int)
    returns (ids: seq<int>)
    requires index.Valid() && index.Holds(base, m) && FreshLabels(index.prefix, base)
    requires emm.keys.crypto.Inverse() && emm.keys.Holds(m, m.Keys, emm.tset)
    requires LookupsApart(emm.keys, m, index.prefix, index.trees)
    ensures index.trees == NoTrees ==> index.sorted == [] && ids == []
    ensures index.trees.Trees? ==>
              QueryAnswer(Frame(index.prefix, index.trees.attrHeight, index.trees.posHeight, base, index.sorted), a, b,
                          ids)
  {
    hide LookupsApart, Level1Labels, Level2Labels, QueryAnswer, CoverOf, TableOk, Apart, EmmKeys.Holds, Crypto.Inverse;
    hide Bag;
    hide Frame.Fits, Frame.Level1, Frame.Level2, Complete, FreshLabels, NormalForm, CoveredBy, InWanted;
    var labels1 := GetI1QueryLabels(index, a, b);
    Labels1Apart(emm.keys, m, index.prefix, index.trees, a, b, labels1);
    var groups := emm.Ask(labels1, m);
    TableValid(index.sorted, index.rangeTable, |index.sorted|);
    var ranges := FilterAndMerge(index.rangeTable, groups, a, b);
    var labels2 := GetI2QueryLabels(index, ranges);
    if index.trees.Trees? {
      ghost var f := Frame(index.prefix, index.trees.attrHeight, index.trees.posHeight, base, index.sorted);
      FitsAnyBase(f.(base := map[]), base);
      assert Level1Answer(f, m, a, b, groups);
      GroupsMerged(f, index.rangeTable, m, a, b, groups, ranges);
      Labels2Apart(emm.keys, m, index.prefix, index.trees, ranges, labels2);
      ids := emm.Ask(labels2, m);
      AnswerOf(f, m, a, b, ranges, labels2, ids);
    } else {
      ids := emm.Ask(labels2, m);
      BagOfNone(m);
      assert |multiset(ids)| == 0;
    }
  }

  lemma TableValid(sorted: seq<Rec>, table: seq<RangeMeta>, len: nat)
    requires TableOk(sorted, table, len)
    ensures forall i :: 0 <= i < |table| ==> table[i].start <= table[i].end
  {
    forall i | 0 <= i < |table| ensures table[i].start <= table[i].end { assert GroupOk(sorted, table[i], len); }
  }

  /** The ids at the positions of c, straight from the records. */
  ghost function SliceIds(sorted: seq<Rec>, c: Range): seq<int>
    requires 0 <= c.lo
  {
    seq(Max(0, Min(c.hi + 1, |sorted|) - c.lo), k requires 0 <= k && c.lo + k < |sorted| => sorted[c.lo + k].id)
  }

  lemma {:induction false} IdsAtSlice(sorted: seq<Rec>, c: Range)
    requires 0 <= c.lo
    ensures IdsAt(sorted, c) == SliceIds(sorted, c)
  {
    if sorted != [] {
      IdsAtSlice(sorted[..|sorted| - 1], c);
    }
  }

  /** The answer to a query over records in order: nothing where nothing matches, otherwise the ids at the
      positions of a shortest range with all matches, in the lowest tree that has room for all positions. */
  ghost predicate AnswerOver(sorted: seq<Rec>, a: int, b: int, ids: seq<int>) {
    if forall p :: 0 <= p < |sorted| ==> !(a <= sorted[p].attr <= b) then ids == []
    else exists h: nat, c: Range :: LowestFor(|sorted|, h) && 0 <= c.lo && ShortestCover(h, sorted, a, b, c)
                                    && multiset(ids) == multiset(SliceIds(sorted, c))
  }

  lemma AnswerIsOver(f: Frame, a: int, b: int, ids: seq<int>)
    requires QueryAnswer(f, a, b, ids) && LowestFor(|f.sorted|, f.posHeight)
    ensures AnswerOver(f.sorted, a, b, ids)
  {
    hide HasRange, IdsAt, SliceIds, LowestFor;
    if p :| 0 <= p < |f.sorted| && a <= f.sorted[p].attr <= b {
      assert Matches(f.sorted, a, b, p);
      var c :| ShortestCover(f.posHeight, f.sorted, a, b, c) && multiset(ids) == multiset(IdsAt(f.sorted, c));
      RangeInTree(f.posHeight, c);
      IdsAtSlice(f.sorted, c);
    } else {
      assert forall p :: !Matches(f.sorted, a, b, p);
    }
  }

  lemma RangeInTree(h: nat, c: Range)
    requires HasRange(Initialize(h), c)
    ensures 0 <= c.lo
  {
    InitializeIsTree(h);
    InTreeIsHasRange(Initialize(h), h, 0, c);
    RangesInside(h, 0, c);
  }

  /** Building the index of some records on top of a map, encrypting the map, and asking for the
      attributes in [a, b]. Building fails exactly for a negative attribute; otherwise the answer is that
      over the records in order. The hash is assumed to keep the labels apart in the map of these records,
      whose order and table of groups are determined. */
  method BuildAndQuery(recs: seq<Rec>, base: KeywordMap, prefix: string, keys: EmmKeys, a: int, b: int)
    returns (ok: bool, ids: seq<int>, ghost sorted: seq<Rec>)
    requires FreshLabels(prefix, base) && keys.crypto.Inverse()
    requires forall arranged, table, m ::
               Arranged(recs, arranged) && NonNegative(arranged) && TableOk(arranged, table, |arranged|)
                   && IndexIn(base, prefix, TreesFor(arranged), arranged, table, m) ==>
                 LookupsApart(keys, m, prefix, TreesFor(arranged))
    ensures ok <==> NonNegative(recs)
    ensures ok ==> Arranged(recs, sorted) && AnswerOver(sorted, a, b, ids)
  {
    hide LookupsApart, QueryAnswer, AnswerOver, Arranged, TableOk, IndexIn, TreesFor, FreshLabels, LowestFor;
    hide Crypto.Inverse;
    var index := new LogarithmicSrcI1Index();
    var m;
    m, ok := index.Build(recs, base, prefix);
    sorted := index.sorted;
    if !ok { return false, [], sorted; }
    var emm := new StandardEmm(keys);
    IndexApart(keys, m, prefix, index.trees);
    emm.BuildEmm(m);
    ids := RunQuery(index, emm, m, base, a, b);
    if index.trees.Trees? {
      AnswerIsOver(Frame(prefix, index.trees.attrHeight, index.trees.posHeight, base, sorted), a, b, ids);
    } else {
      NothingOver(a, b);
    }
  }

  lemma IndexApart(keys: EmmKeys, m: KeywordMap, prefix: string, trees: Trees)
    requires LookupsApart(keys, m, prefix, trees)
    ensures Apart(keys, m, {})
  {}

  lemma NothingOver(a: int, b: int)
    ensures AnswerOver([], a, b, [])
  {}
}
