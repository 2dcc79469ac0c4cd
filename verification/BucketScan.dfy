/** Scanning the time buckets: from the bucket the locator points at along the chain, each
    bucket's tree is asked for the local slots of the query. */
module BucketScan {
  import opened Arith
  import opened BinarySearch
  import opened Sequences
  import opened Sorting
  import opened TimeBuckets
  import opened TimeBucketBuilder

  // ----- locating

  /** The bucket whose span has the instant, -1 if there is none. */
  function LocateBucketForTimestamp(buckets: seq<Bucket>, ts: int): int {
    var k := FirstBucketWithEndAtLeast(buckets, ts);
    if 0 <= k < |buckets| && buckets[k].startTs <= ts <= buckets[k].endTs then k else -1
  }

  lemma LocateBucketExact(buckets: seq<Bucket>, ts: int)
    requires Ordered(buckets)
    ensures var k := LocateBucketForTimestamp(buckets, ts);
            if k >= 0 then k < |buckets| && buckets[k].startTs <= ts <= buckets[k].endTs
            else forall j :: 0 <= j < |buckets| ==> !(buckets[j].startTs <= ts <= buckets[j].endTs)
  {
    var f := FirstEndAtLeast(buckets, ts);
    FirstBucketIsFirst(buckets, ts);
    forall j | 0 <= j < |buckets| && buckets[j].startTs <= ts <= buckets[j].endTs
      ensures f >= 0 && buckets[f].startTs <= ts
    {
      assert f < j ==> buckets[f].endTs <= buckets[j].startTs;
    }
  }

  /** The bucket a scan starts from, -1 if no bucket ends at the instant or later. */
  function LocateFirstBucketForQuery(c: Config, buckets: seq<Bucket>, locator: map<int, DayEntry>, ts: int): int
    requires c.Ok() && LocatorOk(c, buckets, locator)
  {
    if buckets == [] then -1
    else if ts <= buckets[0].endTs then buckets[0].bucketId
    else if ts > Last(buckets).endTs then -1
    else
      var day, slot := DayStart(ts), SlotInDay(c, ts);
      SlotStartsBefore(c, ts);
      if day in locator && locator[day].slotToBucket[slot] >= 0 then locator[day].slotToBucket[slot]
      else FirstBucketWithEndAtLeast(buckets, ts)
  }

  /** The day has an entry and the slot a bucket whenever they are looked up: the search behind
      them is never made. */
  lemma LocatorSuffices(c: Config, buckets: seq<Bucket>, locator: map<int, DayEntry>, ts: int)
    requires c.Ok() && LocatorOk(c, buckets, locator) && Ordered(buckets)
    requires buckets != [] && buckets[0].endTs < ts <= Last(buckets).endTs
    ensures 0 <= SlotInDay(c, ts) < LOCATOR_SLOTS_PER_DAY
    ensures DayStart(ts) in locator && locator[DayStart(ts)].slotToBucket[SlotInDay(c, ts)] >= 0
    ensures LocateFirstBucketForQuery(c, buckets, locator, ts) == locator[DayStart(ts)].slotToBucket[SlotInDay(c, ts)]
  {
    SlotStartsBefore(c, ts);
    assert buckets[0].startTs <= ts;
    var day, slot := DayStart(ts), SlotInDay(c, ts);
    assert EntryOk(c, buckets, day, locator[day]);
    assert Last(buckets).endTs >= day + slot * c.timeSlotSeconds;
  }

  /** Every bucket before the one the scan starts from ends before the query. */
  lemma LocateSkipsEarlier(c: Config, buckets: seq<Bucket>, locator: map<int, DayEntry>, ts: int)
    requires c.Ok() && LocatorOk(c, buckets, locator) && Ordered(buckets)
    ensures var k := LocateFirstBucketForQuery(c, buckets, locator, ts);
            && -1 <= k < |buckets|
            && forall j :: 0 <= j < (if k >= 0 then k else |buckets|) ==> buckets[j].endTs < ts
  {
    if buckets != [] && buckets[0].endTs < ts <= Last(buckets).endTs {
      LocatorSuffices(c, buckets, locator, ts);
      SlotStartsBefore(c, ts);
      assert EntryOk(c, buckets, DayStart(ts), locator[DayStart(ts)]);
    } else if buckets != [] && ts > Last(buckets).endTs {
      forall j | 0 <= j < |buckets| ensures buckets[j].endTs < ts {
        assert j < |buckets| - 1 ==> buckets[j].endTs <= buckets[|buckets| - 1].startTs;
      }
    }
  }

  // ----- local slots

  /** The first position with v or more, by binary search. */
  function LowerBound(s: seq<int>, v: int): nat { PartitionPoint((i: nat) => i < |s| && s[i] < v, 0, |s|) }

  /** The first position with more than v, by binary search. */
  function UpperBound(s: seq<int>, v: int): nat { PartitionPoint((i: nat) => i < |s| && s[i] <= v, 0, |s|) }

  /** In an increasing list the lower bound parts what is less from the rest. */
  lemma LowerBoundParts(s: seq<int>, v: int, i: nat)
    requires Increasing(s) && i < |s|
    ensures LowerBound(s, v) <= |s| && (i < LowerBound(s, v) <==> s[i] < v)
  {
    hide PartitionPoint;
    var below := (j: nat) => j < |s| && s[j] < v;
    PartitionPointExact(below, 0, |s|);
    assert below(i) <==> s[i] < v;
  }

  lemma UpperBoundParts(s: seq<int>, v: int, i: nat)
    requires Increasing(s) && i < |s|
    ensures UpperBound(s, v) <= |s| && (i < UpperBound(s, v) <==> s[i] <= v)
  {
    hide PartitionPoint;
    var below := (j: nat) => j < |s| && s[j] <= v;
    PartitionPointExact(below, 0, |s|);
    assert below(i) <==> s[i] <= v;
  }

  const NO_RANGE := (-1, -1)

  /** The local slots of the bucket that a query asks for. */
  function LocalRangeForQuery(b: Bucket, start: int, end: int, slotSeconds: int): (int, int) {
    if b.occupied == [] || start > end then NO_RANGE
    else
      var from, to := Max(start, b.startTs), Min(end, b.endTs);
      if from > to then NO_RANGE
      else
        var left := LowerBound(b.occupied, FloorDiv(from, slotSeconds));
        var right := UpperBound(b.occupied, FloorDiv(to, slotSeconds));
        if left == right then NO_RANGE else (left, right - 1)
  }

  /** Some instant of the query inside the bucket's span falls into the slot. */
  ghost predicate Touches(b: Bucket, start: int, end: int, slotSeconds: int, slot: int) {
    exists t :: start <= t <= end && b.startTs <= t <= b.endTs && FloorDiv(t, slotSeconds) == slot
  }

  /** The slots that some instant between two others falls into are those between theirs. */
  lemma SlotsBetween(from: int, to: int, slotSeconds: int, slot: int)
    requires slotSeconds > 0 && from <= to
    ensures (exists t :: from <= t <= to && FloorDiv(t, slotSeconds) == slot)
            <==> FloorDiv(from, slotSeconds) <= slot <= FloorDiv(to, slotSeconds)
  {
    if t :| from <= t <= to && FloorDiv(t, slotSeconds) == slot {
      FloorDivMonotone(from, t, slotSeconds);
      FloorDivMonotone(t, to, slotSeconds);
    }
    if FloorDiv(from, slotSeconds) <= slot <= FloorDiv(to, slotSeconds) {
      var t := Max(from, slot * slotSeconds);
      FloorDivRoundsDown(from, slotSeconds);
      FloorDivRoundsDown(to, slotSeconds);
      FloorDivRoundsDown(t, slotSeconds);
      ProductsApart(slot, FloorDiv(to, slotSeconds), slotSeconds);
      ProductsApart(slot, FloorDiv(from, slotSeconds), slotSeconds);
      if t != from { QuotientUnique(t, slotSeconds, slot); } else { SlotOfLater(from, slotSeconds, slot); }
      assert from <= t <= to && FloorDiv(t, slotSeconds) == slot;
    }
  }

  lemma SlotOfLater(t: int, slotSeconds: int, slot: int)
    requires slotSeconds > 0 && FloorDiv(t, slotSeconds) <= slot && slot * slotSeconds <= t
    ensures FloorDiv(t, slotSeconds) == slot
  {
    FloorDivRoundsDown(t, slotSeconds);
    ProductsApart(FloorDiv(t, slotSeconds), slot, slotSeconds);
  }

  /** The local range is exactly the bucket's slots that the query touches. */
  lemma LocalRangeExact(b: Bucket, start: int, end: int, slotSeconds: int, i: nat)
    requires slotSeconds > 0 && Increasing(b.occupied) && i < |b.occupied|
    ensures var r := LocalRangeForQuery(b, start, end, slotSeconds);
            r.0 <= i <= r.1 <==> Touches(b, start, end, slotSeconds, b.occupied[i])
  {
    hide LowerBound, UpperBound, FloorDiv;
    var from, to, slot := Max(start, b.startTs), Min(end, b.endTs), b.occupied[i];
    if from <= to {
      SlotsBetween(from, to, slotSeconds, slot);
      var left := LowerBound(b.occupied, FloorDiv(from, slotSeconds));
      var right := UpperBound(b.occupied, FloorDiv(to, slotSeconds));
      LowerBoundParts(b.occupied, FloorDiv(from, slotSeconds), i);
      UpperBoundParts(b.occupied, FloorDiv(to, slotSeconds), i);
      assert Touches(b, start, end, slotSeconds, slot) <==>
             exists t :: from <= t <= to && FloorDiv(t, slotSeconds) == slot;
    }
  }

  /** The local slot of every record of the query is in the local range. */
  lemma RecordInRange(c: Config, g: seq<PointRef>, b: Bucket, k: nat, i: nat, start: int, end: int)
    requires c.Ok() && BucketOk(c.Limits(), g, b, k) && InTime(g) && i < |g| && start <= g[i].timestamp <= end
    ensures var slot := FloorDiv(g[i].timestamp, c.timeSlotSeconds);
            var r := LocalRangeForQuery(b, start, end, c.timeSlotSeconds);
            slot in b.localSlot && 0 <= r.0 <= b.localSlot[slot] <= r.1
  {
    var slot := FloorDiv(g[i].timestamp, c.timeSlotSeconds);
    RulesOk(c);
    assert c.Limits().slotOf(g[i].timestamp) == slot;
    SlotsOfExact(c.Limits(), g, slot);
    SlotsOfIncreasing(c.Limits(), g);
    var j :| 0 <= j < |b.occupied| && b.occupied[j] == slot;
    assert Touches(b, start, end, c.timeSlotSeconds, slot);
    LocalRangeExact(b, start, end, c.timeSlotSeconds, j);
  }

  // ----- the scan

  datatype Found = Found(left: int, right: int, tokens: seq<string>)

  /** The segment tree of a bucket, as far as a scan sees it: what it finds in a range of local slots. */
  datatype Tree = NoTree | Tree(candidates: (int, int) -> seq<Found>)

  datatype Hit = Hit(left: int, right: int, bucketId: int, tokens: seq<string>)

  function Tagged(found: seq<Found>, bucketId: int): seq<Hit> {
    seq(|found|, i requires 0 <= i < |found| => Hit(found[i].left, found[i].right, bucketId, found[i].tokens))
  }

  function HitsOf(b: Bucket, tree: Tree, start: int, end: int, slotSeconds: int): seq<Hit> {
    var r := LocalRangeForQuery(b, start, end, slotSeconds);
    if tree.NoTree? || r.0 == -1 then [] else Tagged(tree.candidates(r.0, r.1), b.bucketId)
  }

  /** The plain scan: every bucket that has a tree is asked. */
  ghost function FullScan(buckets: seq<Bucket>, trees: seq<Tree>, start: int, end: int, slotSeconds: int): seq<Hit> {
    if buckets == [] then []
    else
      var k := |buckets| - 1;
      FullScan(buckets[..k], trees, start, end, slotSeconds)
      + if k < |trees| then HitsOf(buckets[k], trees[k], start, end, slotSeconds) else []
  }

  lemma NoHits(b: Bucket, tree: Tree, start: int, end: int, slotSeconds: int)
    requires b.endTs < start || b.startTs > end
    ensures HitsOf(b, tree, start, end, slotSeconds) == []
  {}

  /** Buckets outside the query add nothing. */
  lemma {:induction false} FullScanSkips(buckets: seq<Bucket>, k: nat, trees: seq<Tree>, start: int, end: int,
                                         slotSeconds: int)
    requires k <= |buckets| && forall j :: k <= j < |buckets| ==> buckets[j].endTs < start || buckets[j].startTs > end
    ensures FullScan(buckets, trees, start, end, slotSeconds) == FullScan(buckets[..k], trees, start, end, slotSeconds)
  {
    var n := |buckets| - 1;
    if k == |buckets| {
      assert buckets[..k] == buckets;
    } else {
      FullScanSkips(buckets[..n], k, trees, start, end, slotSeconds);
      assert buckets[..n][..k] == buckets[..k];
      if n < |trees| { NoHits(buckets[n], trees[n], start, end, slotSeconds); }
    }
  }

  lemma FullScanEmpty(trees: seq<Tree>, start: int, end: int, slotSeconds: int)
    ensures FullScan([], trees, start, end, slotSeconds) == []
  {}

  lemma FullScanStep(buckets: seq<Bucket>, k: nat, trees: seq<Tree>, start: int, end: int, slotSeconds: int)
    requires k < |buckets|
    ensures FullScan(buckets[..k + 1], trees, start, end, slotSeconds) ==
            FullScan(buckets[..k], trees, start, end, slotSeconds)
            + if k < |trees| then HitsOf(buckets[k], trees[k], start, end, slotSeconds) else []
  {
    assert buckets[..k + 1][..k] == buckets[..k];
  }

  lemma {:induction false} FullScanHas(buckets: seq<Bucket>, k: nat, trees: seq<Tree>, start: int, end: int,
                                       slotSeconds: int)
    requires k < |buckets| && k < |trees|
    ensures forall h :: h in HitsOf(buckets[k], trees[k], start, end, slotSeconds) ==>
                          h in FullScan(buckets, trees, start, end, slotSeconds)
  {
    if k < |buckets| - 1 { FullScanHas(buckets[..|buckets| - 1], k, trees, start, end, slotSeconds); }
  }

  // ----- the scan in terms of the slots

  /** The local slots from lo to hi are those the query touches. */
  ghost predicate TouchedRange(b: Bucket, start: int, end: int, slotSeconds: int, lo: nat, hi: nat) {
    && lo <= hi < |b.occupied|
    && forall j: nat :: j < |b.occupied| ==> (lo <= j <= hi <==> Touches(b, start, end, slotSeconds, b.occupied[j]))
  }

  /** All that was found, marked with the bucket. */
  ghost predicate AreHits(found: seq<Found>, bucketId: int, hits: seq<Hit>) {
    |hits| == |found|
    && forall i :: 0 <= i < |found| ==> hits[i] == Hit(found[i].left, found[i].right, bucketId, found[i].tokens)
  }

  /** A bucket's part of a scan: what its tree finds in the local slots that the query touches. */
  ghost predicate IsBucketScan(b: Bucket, tree: Tree, start: int, end: int, slotSeconds: int, hits: seq<Hit>) {
    if tree.NoTree? || forall j :: 0 <= j < |b.occupied| ==> !Touches(b, start, end, slotSeconds, b.occupied[j]) then
      hits == []
    else
      exists lo: nat, hi: nat :: TouchedRange(b, start, end, slotSeconds, lo, hi)
                                 && AreHits(tree.candidates(lo, hi), b.bucketId, hits)
  }

  /** The parts of the first n buckets, as far as they have a tree, one after the other. */
  ghost predicate IsScan(buckets: seq<Bucket>, n: nat, trees: seq<Tree>, start: int, end: int, slotSeconds: int,
                         result: seq<Hit>)
    requires n <= |buckets|
  {
    exists parts: seq<seq<Hit>> ::
      && |parts| == Min(n, |trees|) && IsConcat(parts, result)
      && forall k :: 0 <= k < |parts| ==> IsBucketScan(buckets[k], trees[k], start, end, slotSeconds, parts[k])
  }

  lemma RangeInside(b: Bucket, start: int, end: int, slotSeconds: int)
    requires slotSeconds > 0 && Increasing(b.occupied)
    ensures var r := LocalRangeForQuery(b, start, end, slotSeconds);
            r == NO_RANGE || 0 <= r.0 <= r.1 < |b.occupied|
  {
    hide LowerBound, UpperBound, FloorDiv;
    var from, to := Max(start, b.startTs), Min(end, b.endTs);
    if b.occupied != [] && from <= to {
      var left := LowerBound(b.occupied, FloorDiv(from, slotSeconds));
      var right := UpperBound(b.occupied, FloorDiv(to, slotSeconds));
      FloorDivMonotone(from, to, slotSeconds);
      LowerBoundParts(b.occupied, FloorDiv(from, slotSeconds), 0);
      UpperBoundParts(b.occupied, FloorDiv(to, slotSeconds), 0);
      if right < left {
        LowerBoundParts(b.occupied, FloorDiv(from, slotSeconds), right);
        UpperBoundParts(b.occupied, FloorDiv(to, slotSeconds), right);
      }
    }
  }

  lemma HitsExact(b: Bucket, tree: Tree, start: int, end: int, slotSeconds: int)
    requires slotSeconds > 0 && Increasing(b.occupied)
    ensures IsBucketScan(b, tree, start, end, slotSeconds, HitsOf(b, tree, start, end, slotSeconds))
  {
    hide LocalRangeForQuery, Touches;
    var r := LocalRangeForQuery(b, start, end, slotSeconds);
    RangeInside(b, start, end, slotSeconds);
    forall j: nat | j < |b.occupied| ensures r.0 <= j <= r.1 <==> Touches(b, start, end, slotSeconds, b.occupied[j]) {
      LocalRangeExact(b, start, end, slotSeconds, j);
    }
    if tree.Tree? && r != NO_RANGE {
      assert Touches(b, start, end, slotSeconds, b.occupied[r.0]);
      assert TouchedRange(b, start, end, slotSeconds, r.0, r.1);
      assert AreHits(tree.candidates(r.0, r.1), b.bucketId, HitsOf(b, tree, start, end, slotSeconds));
    }
  }

  lemma {:induction false} FullScanExact(buckets: seq<Bucket>, n: nat, trees: seq<Tree>, start: int, end: int,
                                         slotSeconds: int)
    requires n <= |buckets|
    requires slotSeconds > 0 && forall k :: 0 <= k < |buckets| ==> Increasing(buckets[k].occupied)
    ensures IsScan(buckets, n, trees, start, end, slotSeconds, FullScan(buckets[..n], trees, start, end, slotSeconds))
  {
    hide IsConcat, IsBucketScan, HitsOf, Increasing, FullScan;
    if n == 0 {
      ConcatNone<Hit>();
      FullScanEmpty(trees, start, end, slotSeconds);
      var none: seq<seq<Hit>> := [];
      assert |none| == 0 && IsConcat(none, FullScan(buckets[..0], trees, start, end, slotSeconds));
    } else {
      var k := n - 1;
      var before := FullScan(buckets[..k], trees, start, end, slotSeconds);
      FullScanExact(buckets, k, trees, start, end, slotSeconds);
      FullScanStep(buckets, k, trees, start, end, slotSeconds);
      var parts: seq<seq<Hit>> :|
        && |parts| == Min(k, |trees|) && IsConcat(parts, before)
        && forall j :: 0 <= j < |parts| ==> IsBucketScan(buckets[j], trees[j], start, end, slotSeconds, parts[j]);
      if k < |trees| {
        var hits := HitsOf(buckets[k], trees[k], start, end, slotSeconds);
        HitsExact(buckets[k], trees[k], start, end, slotSeconds);
        ConcatMore(parts, before, hits);
        var parts' := parts + [hits];
        assert |parts'| == Min(n, |trees|) && IsConcat(parts', before + hits);
      } else {
        assert before + [] == before;
        assert |parts| == Min(n, |trees|) && IsConcat(parts, before);
      }
    }
  }

  lemma SlotsRise(c: Config, groups: seq<seq<PointRef>>, buckets: seq<Bucket>)
    requires c.Ok() && BucketsOk(c.Limits(), groups, buckets) && InTime(Flatten(groups))
    ensures forall k :: 0 <= k < |buckets| ==> Increasing(buckets[k].occupied)
  {
    hide SlotsOf, Increasing;
    RulesOk(c);
    forall k | 0 <= k < |buckets| ensures Increasing(buckets[k].occupied) {
      assert BucketOk(c.Limits(), groups[k], buckets[k], k);
      GroupInTime(groups, k);
      SlotsOfIncreasing(c.Limits(), groups[k]);
    }
  }

  /** What a scan needs to know of the index. */
  ghost predicate Scannable(c: Config, buckets: seq<Bucket>, locator: map<int, DayEntry>) {
    && c.Ok() && LocatorOk(c, buckets, locator) && Ordered(buckets) && Linked(buckets)
  }

  lemma ValidScannable(c: Config, groups: seq<seq<PointRef>>, buckets: seq<Bucket>, locator: map<int, DayEntry>)
    requires c.Ok() && LocatorOk(c, buckets, locator) && Linked(buckets)
    requires BucketsOk(c.Limits(), groups, buckets) && InTime(Flatten(groups))
    ensures Scannable(c, buckets, locator)
  {
    BucketsOrdered(c.Limits(), groups, buckets);
  }

  /** The scan finds what the plain scan of all buckets finds, in the same order. */
  method Scan(c: Config, buckets: seq<Bucket>, locator: map<int, DayEntry>, trees: seq<Tree>, start: int, end: int)
    returns (result: seq<Hit>)
    requires Scannable(c, buckets, locator)
    ensures result == FullScan(buckets, trees, start, end, c.timeSlotSeconds)
  {
    hide FullScan, HitsOf, LocateFirstBucketForQuery, LocatorOk, Config.Ok;
    result := [];
    var bucketId := LocateFirstBucketForQuery(c, buckets, locator, start);
    LocateSkipsEarlier(c, buckets, locator, start);
    ghost var n := if bucketId >= 0 then bucketId else |buckets|;
    FullScanSkips(buckets[..n], 0, trees, start, end, c.timeSlotSeconds);
    FullScanEmpty(trees, start, end, c.timeSlotSeconds);
    assert buckets[..n][..0] == [] && buckets[..|buckets|] == buckets;
    while 0 <= bucketId < |buckets|
      invariant n == if bucketId >= 0 then bucketId else |buckets|
      invariant n <= |buckets| && result == FullScan(buckets[..n], trees, start, end, c.timeSlotSeconds)
      decreases |buckets| - n
    {
      var bucket := buckets[bucketId];
      FullScanStep(buckets, n, trees, start, end, c.timeSlotSeconds);
      if bucket.startTs > end {
        LaterBuckets(buckets, bucketId);
        FullScanSkips(buckets, n, trees, start, end, c.timeSlotSeconds);
        return;
      }
      if bucket.endTs >= start && bucketId < |trees| {
        result := result + HitsOf(bucket, trees[bucketId], start, end, c.timeSlotSeconds);
      } else if bucketId < |trees| {
        NoHits(bucket, trees[bucketId], start, end, c.timeSlotSeconds);
      }
      n := n + 1;
      bucketId := bucket.nextBucketId;
    }
  }

  lemma LaterBuckets(buckets: seq<Bucket>, k: nat)
    requires Ordered(buckets) && k < |buckets|
    ensures forall j :: k <= j < |buckets| ==> buckets[j].startTs >= buckets[k].startTs
  {
    forall j | k <= j < |buckets| ensures buckets[j].startTs >= buckets[k].startTs {
      assert k < j ==> buckets[k].endTs <= buckets[j].startTs;
    }
  }

  /** A query of an index: equal to the plain scan, and for every record of the query the tree of
      its bucket was asked for a range that has the record's local slot. */
  method QueryHashStBf(index: AdaptiveTimeBucketBuilder, trees: seq<Tree>, start: int, end: int)
    returns (result: seq<Hit>)
    requires index.Valid()
    ensures result == FullScan(index.buckets, trees, start, end, index.config.timeSlotSeconds)
    ensures IsScan(index.buckets, |index.buckets|, trees, start, end, index.config.timeSlotSeconds, result)
    ensures forall k, i :: 0 <= k < |index.groups| && 0 <= i < |index.groups[k]| ==>
              RecordAnswered(index.config, index.groups, index.buckets, trees, k, i, start, end, result)
  {
    ValidScannable(index.config, index.groups, index.buckets, index.dayLocator);
    result := Scan(index.config, index.buckets, index.dayLocator, trees, start, end);
    SlotsRise(index.config, index.groups, index.buckets);
    FullScanExact(index.buckets, |index.buckets|, trees, start, end, index.config.timeSlotSeconds);
    assert index.buckets[..|index.buckets|] == index.buckets;
    forall k, i | 0 <= k < |index.groups| && 0 <= i < |index.groups[k]|
      ensures RecordAnswered(index.config, index.groups, index.buckets, trees, k, i, start, end, result)
    {
      NoRecordMissed(index.config, index.groups, index.buckets, trees, k, i, start, end);
    }
  }

  /** If record i of group k is in the query and the bucket has a tree, the result has its answer. */
  ghost predicate RecordAnswered(c: Config, groups: seq<seq<PointRef>>, buckets: seq<Bucket>, trees: seq<Tree>,
                                 k: nat, i: nat, start: int, end: int, result: seq<Hit>)
    requires |buckets| == |groups| && k < |groups| && i < |groups[k]|
  {
    k < |trees| && trees[k].Tree? && start <= groups[k][i].timestamp <= end ==>
      Answered(c, groups[k][i], buckets[k], trees[k], start, end, result)
  }

  /** The record's local slot is in the bucket's local range, and all that the tree finds in that
      range is in the result. */
  ghost predicate Answered(c: Config, p: PointRef, b: Bucket, tree: Tree, start: int, end: int, result: seq<Hit>)
    requires tree.Tree?
  {
    var slot := FloorDiv(p.timestamp, c.timeSlotSeconds);
    var range := LocalRangeForQuery(b, start, end, c.timeSlotSeconds);
    && slot in b.localSlot && 0 <= range.0 <= b.localSlot[slot] <= range.1
    && forall h :: h in Tagged(tree.candidates(range.0, range.1), b.bucketId) ==> h in result
  }

  lemma NoRecordMissed(c: Config, groups: seq<seq<PointRef>>, buckets: seq<Bucket>, trees: seq<Tree>,
                       k: nat, i: nat, start: int, end: int)
    requires c.Ok() && BucketsOk(c.Limits(), groups, buckets) && InTime(Flatten(groups)) && k < |groups|
    requires i < |groups[k]|
    ensures RecordAnswered(c, groups, buckets, trees, k, i, start, end,
                           FullScan(buckets, trees, start, end, c.timeSlotSeconds))
  {
    hide Answered, FullScan, Flatten, HitsOf, FloorDiv, LocalRangeForQuery;
    if k < |trees| && trees[k].Tree? && start <= groups[k][i].timestamp <= end {
      assert BucketOk(c.Limits(), groups[k], buckets[k], k);
      GroupInTime(groups, k);
      RecordInRange(c, groups[k], buckets[k], k, i, start, end);
      FullScanHas(buckets, k, trees, start, end, c.timeSlotSeconds);
      RangeAnswers(c, groups[k][i], buckets[k], trees[k], start, end,
                   FullScan(buckets, trees, start, end, c.timeSlotSeconds));
    }
  }

  lemma RangeAnswers(c: Config, p: PointRef, b: Bucket, tree: Tree, start: int, end: int, result: seq<Hit>)
    requires tree.Tree? && forall h :: h in HitsOf(b, tree, start, end, c.timeSlotSeconds) ==> h in result
    requires var slot := FloorDiv(p.timestamp, c.timeSlotSeconds);
             var r := LocalRangeForQuery(b, start, end, c.timeSlotSeconds);
             slot in b.localSlot && 0 <= r.0 <= b.localSlot[slot] <= r.1
    ensures Answered(c, p, b, tree, start, end, result)
  {
    hide LocalRangeForQuery, FloorDiv;
    var r := LocalRangeForQuery(b, start, end, c.timeSlotSeconds);
    assert HitsOf(b, tree, start, end, c.timeSlotSeconds) == Tagged(tree.candidates(r.0, r.1), b.bucketId);
  }
}
