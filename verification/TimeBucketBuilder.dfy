/** The builder of adaptive time buckets. */
module TimeBucketBuilder {
  import opened Sorting
  import opened TimeBuckets

  class AdaptiveTimeBucketBuilder {
    var config: Config
    var buckets: seq<Bucket>
    var dayLocator: map<int, DayEntry>
    var recordToBucket: map<int, int>
    var forcedSplitSameAbsSlot: nat
    /** The records of each bucket. */
    ghost var groups: seq<seq<PointRef>>

    constructor (c: Config)
      ensures Valid() && groups == [] && config == c.Normalized()
    {
      config := c.Normalized();
      buckets, dayLocator, recordToBucket, forcedSplitSameAbsSlot, groups := [], map[], map[], 0, [];
    }

    ghost predicate Valid()
      reads this
    {
      && config.Ok() && InTime(Flatten(groups)) && Greedy(config.Limits(), groups)
      && Described(config.Limits()) && Linked(buckets) && LocatorOk(config, buckets, dayLocator)
    }

    /** The buckets, the record map and the counter describe the groups. */
    ghost predicate Described(c: Rules)
      reads this
    {
      && BucketsOk(c, groups, buckets) && RecordsOk(groups, recordToBucket)
      && NonEmpty(groups) && forcedSplitSameAbsSlot == SharedSlots(c, groups)
    }

    /** Cuts the sorted records greedily into buckets. */
    method Build(points: seq<PointRef>)
      requires Valid()
      modifies this
      ensures Valid() && config == old(config)
      ensures multiset(Flatten(groups)) == multiset(points) && InOrder(Flatten(groups))
      ensures CutGreedily(config, groups) && forcedSplitSameAbsSlot == |SplitAt(config, groups)|
    {
      buckets, dayLocator, recordToBucket, forcedSplitSameAbsSlot, groups := [], map[], map[], 0, [];
      PointsInOrder(points);
      if points == [] {
        SharedCounted(config, groups);
        return;
      }
      var sorted := Sort(PointKey, points);
      SortedInTime(points);
      RulesOk(config);
      Partition(config.Limits(), sorted);
      LinkBuckets(config.Limits());
      BucketsOrdered(config.Limits(), groups, buckets);
      dayLocator := BuildDayLocator();
      GreedyIsCut(config, groups);
      SharedCounted(config, groups);
    }

    /** The loop over the records. */
    method Partition(c: Rules, points: seq<PointRef>)
      requires c.Ok() && InTime(points)
      requires groups == [] && buckets == [] && recordToBucket == map[] && forcedSplitSameAbsSlot == 0
      modifies this
      ensures config == old(config) && dayLocator == old(dayLocator)
      ensures BucketsOk(c, groups, buckets) && RecordsOk(groups, recordToBucket)
      ensures NonEmpty(groups) && forcedSplitSameAbsSlot == SharedSlots(c, groups)
      ensures Greedy(c, groups) && Flatten(groups) == points
    {
      hide *;
      var current, currentSlots, currentSlotSet: set<int> := [], [], {};
      ghost var cut := Cutting([], 0, [], 0);
      StartsOpen(c, points);
      for i := 0 to |points|
        invariant config == old(config) && dayLocator == old(dayLocator)
        invariant BucketsOk(c, groups, buckets) && RecordsOk(groups, recordToBucket)
        invariant cut.groups == groups && cut.current == current && cut.forced == forcedSplitSameAbsSlot
        invariant cut.Open(c, points, i)
        invariant currentSlots == SlotsOf(c, current) && currentSlotSet == set s | s in currentSlots
      {
        var close, split;
        current, currentSlots, currentSlotSet, close, split, cut :=
          AddPoint(c, points, i, cut, current, currentSlots, currentSlotSet);
        if split { forcedSplitSameAbsSlot := forcedSplitSameAbsSlot + 1; }
        if close {
          FinalizeCurrentBucket(c, current, currentSlots);
          current, currentSlots, currentSlotSet := [], [], {};
          NoSlots(c);
        }
      }
      Finished(c, points, cut);
    }

    /** Adds the bucket of the current records; without records there is nothing to add. */
    method FinalizeCurrentBucket(ghost c: Rules, current: seq<PointRef>, currentSlots: seq<int>)
      requires c.Ok() && BucketsOk(c, groups, buckets) && RecordsOk(groups, recordToBucket)
      requires InTime(current) && currentSlots == SlotsOf(c, current)
      modifies this
      ensures config == old(config) && dayLocator == old(dayLocator)
      ensures forcedSplitSameAbsSlot == old(forcedSplitSameAbsSlot)
      ensures groups == if current == [] then old(groups) else old(groups) + [current]
      ensures BucketsOk(c, groups, buckets) && RecordsOk(groups, recordToBucket)
    {
      hide *;
      if current == [] { return; }
      SlotsOfIncreasing(c, current);
      NothingToSort(currentSlots);
      var occupied := Unique(Sort(IntKey, currentSlots));
      var localSlot := Numbered(occupied);
      EndSlots(c, current);
      var bucket := Bucket(|buckets|, current[0].timestamp, Last(current).timestamp, occupied[0], Last(occupied),
                           |current|, -1, occupied, localSlot);
      BucketDescribes(c, groups, buckets, current, bucket);
      recordToBucket := RecordAll(recordToBucket, current, |buckets|);
      RecordsAppend(groups, current, old(recordToBucket), recordToBucket);
      buckets, groups := buckets + [bucket], groups + [current];
    }

    method LinkBuckets(ghost c: Rules)
      requires Described(c)
      modifies this`buckets
      ensures Described(c) && Linked(buckets)
    {
      for i := 0 to |buckets|
        invariant BucketsOk(c, groups, buckets)
        invariant forall k :: 0 <= k < i ==> buckets[k].nextBucketId == if k + 1 < |buckets| then k + 1 else -1
      {
        buckets := buckets[i := buckets[i].(nextBucketId := if i + 1 < |buckets| then i + 1 else -1)];
      }
    }

    method BuildDayLocator() returns (locator: map<int, DayEntry>)
      requires config.Ok() && Ordered(buckets)
      ensures LocatorOk(config, buckets, locator)
    {
      hide Ordered, EntryOk, DayStart;
      locator := map[];
      if buckets == [] { return; }
      DayStartMonotone(buckets[0].startTs, buckets[0].startTs);
      var firstDay, lastDay := DayStart(buckets[0].startTs), DayStart(Last(buckets).endTs);
      var day := firstDay;
      while day <= lastDay
        invariant forall d :: d in locator ==> EntryOk(config, buckets, d, locator[d])
        invariant day % SECONDS_PER_DAY == 0
        invariant forall d :: firstDay <= d < day && d <= lastDay && d % SECONDS_PER_DAY == 0 ==> d in locator
        decreases lastDay - day
      {
        var entry := FillEntry(config, buckets, day);
        locator := locator[day := entry];
        day := day + SECONDS_PER_DAY;
      }
      AllDays(buckets, locator);
    }
  }

  /** The inner loop over the slots of one day. */
  method FillEntry(c: Config, buckets: seq<Bucket>, day: int) returns (entry: DayEntry)
    requires Ordered(buckets)
    ensures EntryOk(c, buckets, day, entry)
  {
    var slots := [];
    for slot := 0 to LOCATOR_SLOTS_PER_DAY
      invariant |slots| == slot
      invariant forall j :: 0 <= j < slot ==> slots[j] == FirstEndAtLeast(buckets, day + j * c.timeSlotSeconds)
    {
      FirstBucketIsFirst(buckets, day + slot * c.timeSlotSeconds);
      slots := slots + [FirstBucketWithEndAtLeast(buckets, day + slot * c.timeSlotSeconds)];
    }
    entry := DayEntry(slots[0], slots);
  }

  lemma DayStartMonotone(x: int, y: int)
    requires x <= y
    ensures DayStart(x) <= DayStart(y) && DayStart(x) % SECONDS_PER_DAY == 0
  {
    FloorDivMonotone(x, y, SECONDS_PER_DAY);
  }

  /** With an entry for each day in turn, the day of every instant has one. */
  lemma AllDays(buckets: seq<Bucket>, locator: map<int, DayEntry>)
    requires buckets != []
    requires
      forall day ::
        DayStart(buckets[0].startTs) <= day <= DayStart(Last(buckets).endTs) && day % SECONDS_PER_DAY == 0
        ==> day in locator
    ensures forall ts :: buckets[0].startTs <= ts <= Last(buckets).endTs ==> DayStart(ts) in locator
  {
    forall ts | buckets[0].startTs <= ts <= Last(buckets).endTs ensures DayStart(ts) in locator {
      DayStartMonotone(buckets[0].startTs, ts);
      DayStartMonotone(ts, Last(buckets).endTs);
    }
  }

  /** By time, and by record id where times are equal. */
  ghost predicate InOrder(points: seq<PointRef>) {
    forall i, j :: 0 <= i < j < |points| ==>
      || points[i].timestamp < points[j].timestamp
      || (points[i].timestamp == points[j].timestamp && points[i].recordId <= points[j].recordId)
  }

  lemma PointsInOrder(points: seq<PointRef>)
    ensures multiset(Sort(PointKey, points)) == multiset(points) && InOrder(Sort(PointKey, points))
    ensures points == [] ==> Sort(PointKey, points) == []
  {
    SortSorts(PointKey, points);
    var s := Sort(PointKey, points);
    forall i, j | 0 <= i < j < |s|
      ensures s[i].timestamp < s[j].timestamp || (s[i].timestamp == s[j].timestamp && s[i].recordId <= s[j].recordId)
    {
      assert Before(PointKey(s[i]), PointKey(s[j]));
    }
  }

  lemma SortedInTime(points: seq<PointRef>)
    ensures InTime(Sort(PointKey, points))
  {
    hide Sort, PointKey;
    PointsInOrder(points);
  }

  lemma BucketDescribes(c: Rules, groups: seq<seq<PointRef>>, buckets: seq<Bucket>, g: seq<PointRef>, b: Bucket)
    requires BucketsOk(c, groups, buckets) && g != [] && SlotsOf(c, g) != []
    requires b.bucketId == |buckets| && b.recordCount == |g| && b.startTs == g[0].timestamp
    requires b.endTs == Last(g).timestamp
    requires b.occupied == SlotsOf(c, g) && b.startAbsSlot == b.occupied[0] && b.endAbsSlot == Last(b.occupied)
    requires b.occupied[0] == c.slotOf(b.startTs) && Last(b.occupied) == c.slotOf(b.endTs)
    requires b.localSlot.Keys == (set s | s in b.occupied)
    requires forall i :: 0 <= i < |b.occupied| ==> b.localSlot[b.occupied[i]] == i
    ensures |buckets| == |groups| && BucketsOk(c, groups + [g], buckets + [b])
  {
    hide SlotsOf;
    forall k | 0 <= k < |buckets + [b]| ensures BucketOk(c, (groups + [g])[k], (buckets + [b])[k], k) {
      assert k < |buckets| ==> BucketOk(c, groups[k], buckets[k], k);
    }
  }

  /** How far the cutting is: the groups closed so far hold the records before number start,
      the records from there on are in the current group. */
  datatype Cutting = Cutting(groups: seq<seq<PointRef>>, start: nat, current: seq<PointRef>, forced: nat) {
    ghost predicate Closed(c: Rules, points: seq<PointRef>) {
      && start <= |points| && Flatten(groups) == points[..start] && NonEmpty(groups) && Greedy(c, groups)
      && forced == SharedSlots(c, groups) + CutInSlot(c, points, start)
      && (groups == [] <==> start == 0)
      && (groups != [] ==> Last(groups[|groups| - 1]) == points[start - 1])
      && (groups != [] && start < |points| ==> !GroupOk(c, groups[|groups| - 1] + [points[start]]))
    }

    /** The current group holds the records before number i and may take that record too. */
    ghost predicate Open(c: Rules, points: seq<PointRef>, i: nat) {
      && Closed(c, points) && start <= i <= |points| && current == points[start..i]
      && if i < |points| then GroupOk(c, current + [points[i]]) else current == []
    }

    /** The current group holds the records before number i. */
    ghost predicate Pushed(c: Rules, points: seq<PointRef>, i: nat) {
      && Closed(c, points) && start < i <= |points| && current == points[start..i] && GroupOk(c, current)
         && InTime(current)
    }
  }

  /** The cut before record number i runs through a slot. */
  predicate SplitsSlot(c: Rules, points: seq<PointRef>, i: nat) {
    0 < i < |points| && SameSlot(c, points[i], points[i - 1])
  }

  ghost function CutInSlot(c: Rules, points: seq<PointRef>, i: nat): nat { if SplitsSlot(c, points, i) then 1 else 0 }

  lemma StartsOpen(c: Rules, points: seq<PointRef>)
    requires c.Ok()
    ensures Cutting([], 0, [], 0).Open(c, points, 0)
    ensures BucketsOk(c, [], []) && RecordsOk([], map[]) && SlotsOf(c, []) == []
  {
    if points != [] {
      GroupOfOne(c, points[0]);
      assert [] + [points[0]] == [points[0]];
    }
  }

  lemma NoSlots(c: Rules)
    ensures SlotsOf(c, []) == []
  {}

  /** When all records are taken, the groups hold them all. */
  lemma Finished(c: Rules, points: seq<PointRef>, cut: Cutting)
    requires cut.Open(c, points, |points|)
    ensures NonEmpty(cut.groups) && Greedy(c, cut.groups) && Flatten(cut.groups) == points
    ensures cut.forced == SharedSlots(c, cut.groups)
  {
    assert points[..|points|] == points;
    assert cut.start == |points| by { assert |points[cut.start..]| == 0; }
  }

  /** Takes one record into the current group and decides whether the bucket is to be closed,
      and whether that splits a slot. */
  method AddPoint(c: Rules, points: seq<PointRef>, i: nat, ghost cut: Cutting,
                  current: seq<PointRef>, currentSlots: seq<int>, currentSlotSet: set<int>)
    returns (current': seq<PointRef>, slots: seq<int>, slotSet: set<int>, close: bool, split: bool, ghost cut': Cutting)
    requires c.Ok() && InTime(points) && i < |points| && cut.Open(c, points, i) && cut.current == current
    requires currentSlots == SlotsOf(c, current) && currentSlotSet == set s | s in currentSlots
    ensures current' != [] && InTime(current') && slots == SlotsOf(c, current') && slotSet == set s | s in slots
    ensures cut'.Open(c, points, i + 1) && (split ==> close)
    ensures cut'.groups == (if close then cut.groups + [current'] else cut.groups)
    ensures cut'.current == (if close then [] else current')
    ensures cut'.forced == cut.forced + if split then 1 else 0
  {
    hide *;
    var point := points[i];
    Push(c, points, i, cut);
    SplitsNext(c, points, i);
    slots, slotSet := NoteSlot(c, current, point, currentSlots, currentSlotSet);
    current' := current + [point];
    var lastPoint := i + 1 == |points|;
    var nextSlotDiffers := lastPoint || !SameSlot(c, points[i + 1], point);
    close := Closes(c, |current'|, |slotSet|, nextSlotDiffers) || lastPoint;
    split := |current'| >= c.maxRecords && !nextSlotDiffers;
    cut' := cut.(current := current');
    if close {
      CloseGroup(c, points, i + 1, cut', split);
      cut' := Cutting(cut.groups + [current'], i + 1, [], cut.forced + if split then 1 else 0);
    } else {
      KeepOpen(c, points, i + 1, cut');
    }
  }

  /** Adds the slot of a record to the slots of the current group, unless it is there. */
  method NoteSlot(c: Rules, ghost g: seq<PointRef>, p: PointRef, slots: seq<int>, slotSet: set<int>)
    returns (slots': seq<int>, slotSet': set<int>)
    requires c.Ok() && InTime(g) && InTime(g + [p]) && slots == SlotsOf(c, g) && slotSet == set s | s in slots
    ensures slots' == SlotsOf(c, g + [p]) && (slotSet' == set s | s in slots') && |slotSet'| == |slots'|
  {
    PushSlots(c, g, p);
    slots', slotSet' := slots, slotSet;
    if c.slotOf(p.timestamp) !in slotSet {
      slotSet' := slotSet + {c.slotOf(p.timestamp)};
      slots' := slots + [c.slotOf(p.timestamp)];
    }
    SameSize(slots', slotSet');
  }

  lemma SplitsNext(c: Rules, points: seq<PointRef>, i: nat)
    ensures SplitsSlot(c, points, i + 1) <==> i + 1 < |points| && SameSlot(c, points[i + 1], points[i])
  {}

  lemma Push(c: Rules, points: seq<PointRef>, i: nat, cut: Cutting)
    requires InTime(points) && i < |points| && cut.Open(c, points, i)
    ensures cut.(current := cut.current + [points[i]]).Pushed(c, points, i + 1)
    ensures InTime(cut.current) && InTime(cut.current + [points[i]])
  {
    hide Flatten, SharedSlots, SlotsOf, Greedy, GroupOk;
    assert cut.current + [points[i]] == points[cut.start..i + 1];
  }

  lemma PushSlots(c: Rules, g: seq<PointRef>, p: PointRef)
    requires c.Ok() && InTime(g) && InTime(g + [p])
    ensures var slot, slots := c.slotOf(p.timestamp), SlotsOf(c, g);
            SlotsOf(c, g + [p]) == if slot in slots then slots else slots + [slot]
    ensures Increasing(SlotsOf(c, g + [p]))
  {
    NewSlot(c, g, p);
    SlotsOfAppend(c, g, p);
    SlotsOfIncreasing(c, g + [p]);
  }

  /** The rules leave the bucket open only if the next record fits. */
  lemma KeepOpen(c: Rules, points: seq<PointRef>, i: nat, cut: Cutting)
    requires c.Ok() && cut.Pushed(c, points, i) && i < |points|
    requires !Closes(c, |cut.current|, |SlotsOf(c, cut.current)|, !SplitsSlot(c, points, i))
    ensures cut.Open(c, points, i) && |cut.current| < c.maxRecords
  {
    hide Flatten, SharedSlots, SlotsOf, Greedy, InTime;
    ClosesIffFull(c, cut.current, points[i]);
  }

  lemma CloseFlat(points: seq<PointRef>, i: nat, cut: Cutting)
    requires cut.start <= i <= |points| && Flatten(cut.groups) == points[..cut.start]
    requires cut.current == points[cut.start..i]
    ensures Flatten(cut.groups + [cut.current]) == points[..i]
  {
    FlattenAppend(cut.groups, cut.current);
    assert points[..i] == points[..cut.start] + points[cut.start..i];
  }

  /** It makes the cut before the group one between two groups, and counts its own cut if that
      splits a slot. */
  lemma CloseCounts(c: Rules, points: seq<PointRef>, i: nat, cut: Cutting, split: bool)
    requires cut.Pushed(c, points, i) && (split <==> SplitsSlot(c, points, i))
    ensures NonEmpty(cut.groups + [cut.current])
    ensures cut.forced + (if split then 1 else 0) ==
            SharedSlots(c, cut.groups + [cut.current]) + CutInSlot(c, points, i)
  {
    hide Flatten, SlotsOf, Greedy, GroupOk, InTime;
    assert cut.current[0] == points[cut.start];
    SharedAppend(c, cut.groups, cut.current);
  }

  /** The last group and the next record break a limit. */
  lemma CloseFull(c: Rules, points: seq<PointRef>, i: nat, cut: Cutting)
    requires c.Ok() && cut.Pushed(c, points, i)
    requires i < |points| ==> Closes(c, |cut.current|, |SlotsOf(c, cut.current)|, !SplitsSlot(c, points, i))
    ensures Last(cut.current) == points[i - 1]
    ensures i < |points| ==> !GroupOk(c, cut.current + [points[i]])
    ensures Greedy(c, cut.groups + [cut.current])
  {
    hide Flatten, SharedSlots, SlotsOf, GroupOk, InTime, NonEmpty, Greedy;
    assert cut.current[0] == points[cut.start] && Last(cut.current) == points[i - 1];
    GreedyAppend(c, cut.groups, cut.current);
    if i < |points| { ClosesIffFull(c, cut.current, points[i]); }
  }

  /** Closing the current group keeps the cutting greedy, and counts the cut if it splits a slot. */
  lemma CloseGroup(c: Rules, points: seq<PointRef>, i: nat, cut: Cutting, split: bool)
    requires c.Ok() && cut.Pushed(c, points, i)
    requires i < |points| ==> Closes(c, |cut.current|, |SlotsOf(c, cut.current)|, !SplitsSlot(c, points, i))
    requires split <==> |cut.current| >= c.maxRecords && SplitsSlot(c, points, i)
    ensures Cutting(cut.groups + [cut.current], i, [], cut.forced + if split then 1 else 0).Open(c, points, i)
  {
    hide Flatten, SharedSlots, SlotsOf, Greedy, GroupOk, InTime;
    CloseFlat(points, i, cut);
    CloseCounts(c, points, i, cut, split);
    CloseFull(c, points, i, cut);
    if i < |points| {
      GroupOfOne(c, points[i]);
      assert [] + [points[i]] == [points[i]];
    }
  }

  /** An increasing list has as many elements as its set. */
  lemma {:induction false} SameSize(s: seq<int>, t: set<int>)
    requires Increasing(s) && t == set x | x in s
    ensures |s| == |t|
  {
    if s != [] {
      var front, last := s[..|s| - 1], s[|s| - 1];
      var rest := set x | x in front;
      SameSize(front, rest);
      assert forall i :: 0 <= i < |front| ==> front[i] < last;
      assert last !in rest && t == rest + {last};
    }
  }

  function Numbered(s: seq<int>): (m: map<int, nat>)
    requires Increasing(s)
    ensures m.Keys == set x | x in s
    ensures forall i :: 0 <= i < |s| ==> m[s[i]] == i
  {
    if s == [] then map[] else Numbered(s[..|s| - 1])[s[|s| - 1] := |s| - 1]
  }

  lemma {:induction false} FirstSlot(c: Rules, g: seq<PointRef>)
    requires g != []
    ensures SlotsOf(c, g) != [] && SlotsOf(c, g)[0] == c.slotOf(g[0].timestamp)
  {
    if |g| > 1 { FirstSlot(c, g[..|g| - 1]); }
  }

  lemma EndSlots(c: Rules, g: seq<PointRef>)
    requires c.Ok() && InTime(g) && g != []
    ensures SlotsOf(c, g) != [] && SlotsOf(c, g)[0] == c.slotOf(g[0].timestamp)
    ensures Last(SlotsOf(c, g)) == c.slotOf(Last(g).timestamp)
  {
    FirstSlot(c, g);
    SlotsOfIncreasing(c, g);
  }

  /** Maps every record of g to a bucket. */
  method RecordAll(m: map<int, int>, g: seq<PointRef>, k: int) returns (m': map<int, int>)
    ensures forall id ::
              && (id in m' <==> id in m || HasRecord(g, id))
              && (id in m' ==> m'[id] == if HasRecord(g, id) then k else m[id])
  {
    m' := m;
    for i := 0 to |g|
      invariant forall id :: id in m' <==> id in m || HasRecord(g[..i], id)
      invariant forall id :: id in m' ==> m'[id] == if HasRecord(g[..i], id) then k else m[id]
    {
      RecordMore(g, i);
      m' := m'[g[i].recordId := k];
    }
    assert g[..|g|] == g;
  }

  lemma RecordMore(g: seq<PointRef>, i: nat)
    requires i < |g|
    ensures forall id :: HasRecord(g[..i + 1], id) <==> HasRecord(g[..i], id) || id == g[i].recordId
  {
    forall id ensures HasRecord(g[..i + 1], id) <==> HasRecord(g[..i], id) || id == g[i].recordId {
      if HasRecord(g[..i], id) {
        var j :| 0 <= j < i && g[..i][j].recordId == id;
        assert g[..i + 1][j].recordId == id;
      }
      if id == g[i].recordId { assert g[..i + 1][i].recordId == id; }
      if HasRecord(g[..i + 1], id) {
        var j :| 0 <= j < i + 1 && g[..i + 1][j].recordId == id;
        assert j < i ==> g[..i][j].recordId == id;
      }
    }
  }
}
