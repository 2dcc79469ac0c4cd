/** Adaptive time buckets: the sorted records are cut greedily into buckets, and a locator per
    day and slot points at the first bucket that can hold a record of that slot or later. */
module TimeBuckets {
  import opened Arith
  import opened BinarySearch
  import opened Sequences
  import opened Sorting

  datatype PointRef = PointRef(recordId: int, timestamp: int)

  datatype Config = Config(timeSlotSeconds: int, targetRecords: int, maxRecords: int, maxOccupiedSlots: int) {
    ghost predicate Ok() { timeSlotSeconds >= 1 && 1 <= targetRecords <= maxRecords && maxOccupiedSlots >= 1 }

    ghost predicate AtLeast(c: Config) {
      && timeSlotSeconds >= c.timeSlotSeconds && targetRecords >= c.targetRecords
      && maxRecords >= c.maxRecords && maxOccupiedSlots >= c.maxOccupiedSlots
    }

    /** Any configuration is raised to the least one in range; one in range is kept. */
    function Normalized(): (c: Config)
      ensures c.Ok() && (Ok() ==> c == this)
      ensures c.AtLeast(this) && forall d: Config :: d.Ok() && d.AtLeast(this) ==> d.AtLeast(c)
    {
      var target := Max(1, targetRecords);
      Config(Max(1, timeSlotSeconds), target, Max(target, maxRecords), Max(1, maxOccupiedSlots))
    }

    function Limits(): Rules { Rules(SlotNumber(timeSlotSeconds), targetRecords, maxRecords, maxOccupiedSlots) }
  }

  /** What the cutting into buckets depends on: the slot of an instant, and the limits. */
  datatype Rules = Rules(slotOf: int -> int, targetRecords: int, maxRecords: int, maxOccupiedSlots: int) {
    ghost predicate Ok() {
      && 1 <= targetRecords <= maxRecords && maxOccupiedSlots >= 1
      && forall x, y :: x <= y ==> slotOf(x) <= slotOf(y)
    }
  }

  const SECONDS_PER_DAY := 86400
  const LOCATOR_SLOTS_PER_DAY := 144

  // ----- slots and days

  /** Both divisions are of non-negative numbers, where truncating and rounding down agree. */
  function FloorDiv(value: int, divisor: int): int {
    if divisor <= 0 then 0
    else if value >= 0 then value / divisor
    else -((-value + divisor - 1) / divisor)
  }

  lemma QuotientUnique(value: int, divisor: int, q: int)
    requires divisor > 0 && q * divisor <= value < (q + 1) * divisor
    ensures q == value / divisor
  {
    var r := value / divisor;
    assert value == r * divisor + value % divisor;
    ProductsApart(q, r, divisor);
    ProductsApart(r, q, divisor);
  }

  lemma ProductsApart(p: int, q: int, d: int)
    requires d > 0
    ensures (p + 1) * d == p * d + d
    ensures p < q ==> (p + 1) * d <= q * d
  {
    if p < q {
      var m := q - p - 1;
      assert m * d >= 0;
      assert q * d == (p + 1 + m) * d == (p + 1) * d + m * d;
    }
  }

  /** The quotient is rounded down also for negative values. */
  lemma FloorDivRoundsDown(value: int, divisor: int)
    requires divisor > 0
    ensures FloorDiv(value, divisor) * divisor <= value < (FloorDiv(value, divisor) + 1) * divisor
    ensures FloorDiv(value, divisor) == value / divisor
  {
    if value < 0 {
      var up := (-value + divisor - 1) / divisor;
      assert -value + divisor - 1 == up * divisor + (-value + divisor - 1) % divisor;
      assert (-up) * divisor == -(up * divisor);
      assert (-up + 1) * divisor == -(up * divisor) + divisor;
      QuotientUnique(value, divisor, -up);
    }
  }

  lemma FloorDivMonotone(x: int, y: int, divisor: int)
    requires divisor > 0 && x <= y
    ensures FloorDiv(x, divisor) <= FloorDiv(y, divisor)
  {
    FloorDivRoundsDown(x, divisor);
    FloorDivRoundsDown(y, divisor);
    ProductsApart(FloorDiv(y, divisor), FloorDiv(x, divisor), divisor);
  }

  function SlotNumber(seconds: int): int -> int { ts => FloorDiv(ts, seconds) }

  lemma RulesOk(c: Config)
    requires c.Ok()
    ensures c.Limits().Ok()
  {
    var slotOf := c.Limits().slotOf;
    forall x, y | x <= y ensures slotOf(x) <= slotOf(y) { FloorDivMonotone(x, y, c.timeSlotSeconds); }
  }

  function DayStart(ts: int): int { FloorDiv(ts, SECONDS_PER_DAY) * SECONDS_PER_DAY }

  function SlotInDay(c: Config, ts: int): int
    requires c.Ok()
  {
    var offset := Max(0, ts - DayStart(ts));
    Min(LOCATOR_SLOTS_PER_DAY - 1, Max(0, offset / c.timeSlotSeconds))
  }

  /** The slot of the day never begins after the instant, whatever the slot length. */
  lemma SlotStartsBefore(c: Config, ts: int)
    requires c.Ok()
    ensures 0 <= SlotInDay(c, ts) < LOCATOR_SLOTS_PER_DAY
    ensures DayStart(ts) + SlotInDay(c, ts) * c.timeSlotSeconds <= ts
  {
    FloorDivRoundsDown(ts, SECONDS_PER_DAY);
    var offset, len := ts - DayStart(ts), c.timeSlotSeconds;
    assert offset == (offset / len) * len + offset % len;
    assert SlotInDay(c, ts) * len <= (offset / len) * len;
  }

  /** The instant lies before the next slot of the day begins, exactly if the day's last slot, which has no
      next one, has not ended before it. */
  lemma SlotEndsAfter(c: Config, ts: int)
    requires c.Ok()
    ensures DayStart(ts) % SECONDS_PER_DAY == 0 && DayStart(ts) <= ts < DayStart(ts) + SECONDS_PER_DAY
    ensures ts < DayStart(ts) + (SlotInDay(c, ts) + 1) * c.timeSlotSeconds <==>
            ts < DayStart(ts) + LOCATOR_SLOTS_PER_DAY * c.timeSlotSeconds
  {
    FloorDivRoundsDown(ts, SECONDS_PER_DAY);
    var offset, len := ts - DayStart(ts), c.timeSlotSeconds;
    var q, last := offset / len, LOCATOR_SLOTS_PER_DAY - 1;
    assert offset == q * len + offset % len;
    ProductsApart(q, q, len);
    ProductsApart(last, q, len);
    ProductsApart(q, last + 1, len);
    ProductsApart(last, last, len);
    if q < last { ProductsApart(q, last, len); }
  }

  // ----- the slots of a group of records

  ghost predicate InTime(g: seq<PointRef>) {
    forall i, j :: 0 <= i < j < |g| ==> g[i].timestamp <= g[j].timestamp
  }

  /** The slots of records in order of time, each once. */
  ghost function SlotsOf(c: Rules, g: seq<PointRef>): seq<int> {
    if g == [] then []
    else
      var front, slot := SlotsOf(c, g[..|g| - 1]), c.slotOf(g[|g| - 1].timestamp);
      if |g| > 1 && c.slotOf(g[|g| - 2].timestamp) == slot then front else front + [slot]
  }

  ghost predicate HasSlot(c: Rules, g: seq<PointRef>, slot: int) {
    exists i :: 0 <= i < |g| && c.slotOf(g[i].timestamp) == slot
  }

  lemma {:induction false} SlotsOfIncreasing(c: Rules, g: seq<PointRef>)
    requires c.Ok() && InTime(g)
    ensures Increasing(SlotsOf(c, g)) && (g == [] <==> SlotsOf(c, g) == [])
    ensures g != [] ==> SlotsOf(c, g)[|SlotsOf(c, g)| - 1] == c.slotOf(g[|g| - 1].timestamp)
  {
    if |g| > 1 {
      SlotsOfIncreasing(c, g[..|g| - 1]);
    }
  }

  /** They are exactly the slots some record falls into. */
  lemma {:induction false} SlotsOfExact(c: Rules, g: seq<PointRef>, slot: int)
    ensures slot in SlotsOf(c, g) <==> HasSlot(c, g, slot)
  {
    if g != [] {
      var front, last := g[..|g| - 1], c.slotOf(g[|g| - 1].timestamp);
      SlotsOfExact(c, front, slot);
      if HasSlot(c, front, slot) {
        var i :| 0 <= i < |front| && c.slotOf(front[i].timestamp) == slot;
        assert c.slotOf(g[i].timestamp) == slot;
      }
      if HasSlot(c, g, slot) {
        var i :| 0 <= i < |g| && c.slotOf(g[i].timestamp) == slot;
        assert i < |g| - 1 ==> c.slotOf(front[i].timestamp) == slot;
        if slot == last && |g| > 1 && c.slotOf(g[|g| - 2].timestamp) == slot {
          assert c.slotOf(front[|front| - 1].timestamp) == slot;
        }
      }
    }
  }

  lemma SlotsOfAppend(c: Rules, g: seq<PointRef>, p: PointRef)
    ensures SlotsOf(c, g + [p]) ==
            if g != [] && c.slotOf(g[|g| - 1].timestamp) == c.slotOf(p.timestamp) then SlotsOf(c, g)
            else SlotsOf(c, g) + [c.slotOf(p.timestamp)]
  {
    var all := g + [p];
    assert all[..|all| - 1] == g;
  }

  /** For a record that comes last, being new means not sharing the slot of the one before it. */
  lemma NewSlot(c: Rules, g: seq<PointRef>, p: PointRef)
    requires c.Ok() && InTime(g + [p]) && InTime(g)
    ensures c.slotOf(p.timestamp) in SlotsOf(c, g) <==>
              g != [] && c.slotOf(g[|g| - 1].timestamp) == c.slotOf(p.timestamp)
  {
    var slots, slot := SlotsOf(c, g), c.slotOf(p.timestamp);
    SlotsOfIncreasing(c, g);
    if g != [] {
      var all := g + [p];
      assert all[|g| - 1].timestamp <= all[|g|].timestamp;
      if slot in slots {
        var i :| 0 <= i < |slots| && slots[i] == slot;
        assert slots[i] <= slots[|slots| - 1];
      }
    }
  }

  // ----- groups

  /** A group of records that one bucket may hold: within both limits, and from the target
      record on all in one slot. */
  ghost predicate GroupOk(c: Rules, g: seq<PointRef>) {
    && 0 < |g| <= c.maxRecords
    && |SlotsOf(c, g)| <= c.maxOccupiedSlots
    && forall i :: 0 <= i < |g| && i >= c.targetRecords - 1 ==>
       c.slotOf(g[i].timestamp) == c.slotOf(g[|g| - 1].timestamp)
  }

  /** The three rules of the builder for closing a bucket after the records of g. */
  predicate Closes(c: Rules, records: int, slots: int, nextSlotDiffers: bool) {
    records >= c.maxRecords
    || (slots >= c.maxOccupiedSlots && nextSlotDiffers)
    || (records >= c.targetRecords && nextSlotDiffers)
  }

  lemma GroupOfOne(c: Rules, p: PointRef)
    requires c.Ok()
    ensures GroupOk(c, [p])
  {
    SlotsOfAppend(c, [], p);
    assert [] + [p] == [p];
  }

  /** The rules close a bucket exactly when the next record would break one of its limits. */
  lemma ClosesIffFull(c: Rules, g: seq<PointRef>, next: PointRef)
    requires c.Ok() && GroupOk(c, g)
    ensures var differs := c.slotOf(next.timestamp) != c.slotOf(g[|g| - 1].timestamp);
            Closes(c, |g|, |SlotsOf(c, g)|, differs) <==> !GroupOk(c, g + [next])
  {
    var longer, differs := g + [next], c.slotOf(next.timestamp) != c.slotOf(g[|g| - 1].timestamp);
    SlotsOfAppend(c, g, next);
    assert longer[|g| - 1] == g[|g| - 1] && longer[|longer| - 1] == next;
    if !Closes(c, |g|, |SlotsOf(c, g)|, differs) {
      forall i | 0 <= i < |longer| && i >= c.targetRecords - 1
        ensures c.slotOf(longer[i].timestamp) == c.slotOf(next.timestamp)
      {
        assert i < |g| ==> longer[i] == g[i];
      }
    }
  }

  ghost function Flatten(groups: seq<seq<PointRef>>): seq<PointRef> {
    if groups == [] then [] else groups[0] + Flatten(groups[1..])
  }

  /** The groups are cut greedily: each is as long as the limits allow. */
  ghost predicate Greedy(c: Rules, groups: seq<seq<PointRef>>) {
    && (forall k :: 0 <= k < |groups| ==> GroupOk(c, groups[k]))
    && forall k :: 0 < k < |groups| ==> FullBefore(c, groups, k)
  }

  /** The group before number k has no room for the first record of group k. */
  ghost predicate FullBefore(c: Rules, groups: seq<seq<PointRef>>, k: nat)
    requires 0 < k < |groups|
  {
    groups[k] != [] && !GroupOk(c, groups[k - 1] + [groups[k][0]])
  }

  lemma GreedyAppend(c: Rules, groups: seq<seq<PointRef>>, g: seq<PointRef>)
    requires Greedy(c, groups) && GroupOk(c, g)
    requires groups != [] ==> !GroupOk(c, groups[|groups| - 1] + [g[0]])
    ensures Greedy(c, groups + [g])
  {
    var all := groups + [g];
    forall k | 0 <= k < |all| ensures GroupOk(c, all[k]) { assert k < |groups| ==> all[k] == groups[k]; }
    forall k | 0 < k < |all| ensures FullBefore(c, all, k) {
      assert k < |groups| ==> FullBefore(c, groups, k);
    }
  }

  /** The limits are inherited by every non-empty beginning of a group. */
  lemma PrefixOk(c: Rules, g: seq<PointRef>, n: nat)
    requires GroupOk(c, g) && 0 < n <= |g|
    ensures GroupOk(c, g[..n])
  {
    SlotsOfPrefix(c, g, n);
    forall i | 0 <= i < n && i >= c.targetRecords - 1
      ensures c.slotOf(g[..n][i].timestamp) == c.slotOf(g[..n][n - 1].timestamp)
    {
      assert c.slotOf(g[n - 1].timestamp) == c.slotOf(g[|g| - 1].timestamp);
    }
  }

  lemma {:induction false} SlotsOfPrefix(c: Rules, g: seq<PointRef>, n: nat)
    requires n <= |g|
    ensures |SlotsOf(c, g[..n])| <= |SlotsOf(c, g)|
  {
    if n == |g| {
      assert g[..n] == g;
    } else {
      assert g[..|g| - 1][..n] == g[..n];
      SlotsOfPrefix(c, g[..|g| - 1], n);
    }
  }

  /** There is only one greedy way to cut a sequence. */
  lemma {:induction false} GreedyIsUnique(c: Rules, a: seq<seq<PointRef>>, b: seq<seq<PointRef>>)
    requires Greedy(c, a) && Greedy(c, b) && Flatten(a) == Flatten(b)
    ensures a == b
    decreases |a|
  {
    FlattenNotEmpty(c, a);
    FlattenNotEmpty(c, b);
    if a != [] && b != [] {
      NotLonger(c, a, b);
      NotLonger(c, b, a);
      var s := Flatten(a);
      assert a[0] == s[..|a[0]|] && b[0] == s[..|b[0]|];
      assert Flatten(a[1..]) == s[|a[0]|..] == Flatten(b[1..]);
      GreedyTail(c, a);
      GreedyTail(c, b);
      GreedyIsUnique(c, a[1..], b[1..]);
      assert a == [a[0]] + a[1..] && b == [b[0]] + b[1..];
    }
  }

  lemma GreedyTail(c: Rules, groups: seq<seq<PointRef>>)
    requires Greedy(c, groups) && groups != []
    ensures Greedy(c, groups[1..])
  {
    forall k | 0 <= k < |groups[1..]| ensures GroupOk(c, groups[1..][k]) { assert groups[1..][k] == groups[k + 1]; }
    forall k | 0 < k < |groups[1..]| ensures FullBefore(c, groups[1..], k) {
      assert FullBefore(c, groups, k + 1);
    }
  }

  lemma FlattenNotEmpty(c: Rules, groups: seq<seq<PointRef>>)
    requires Greedy(c, groups)
    ensures groups != [] ==> Flatten(groups) != []
  {
    if groups != [] { assert GroupOk(c, groups[0]); }
  }

  /** What comes behind the first group is the first record of the second. */
  lemma SecondGroup(c: Rules, groups: seq<seq<PointRef>>)
    requires Greedy(c, groups) && groups != [] && |Flatten(groups)| > |groups[0]|
    ensures |groups| > 1 && groups[1] != [] && Flatten(groups)[|groups[0]|] == groups[1][0]
  {
    assert Flatten(groups) == groups[0] + Flatten(groups[1..]);
    GreedyTail(c, groups);
    FlattenNotEmpty(c, groups[1..]);
    assert Flatten(groups[1..]) == groups[1..][0] + Flatten(groups[1..][1..]);
    assert GroupOk(c, groups[1]);
  }

  lemma BeginningOk(c: Rules, g: seq<PointRef>, h: seq<PointRef>)
    requires GroupOk(c, g) && h != []
    ensures h <= g ==> GroupOk(c, h)
  {
    if h <= g {
      PrefixOk(c, g, |h|);
      assert g[..|h|] == h;
    }
  }

  lemma NotLonger(c: Rules, a: seq<seq<PointRef>>, b: seq<seq<PointRef>>)
    requires Greedy(c, a) && Greedy(c, b) && Flatten(a) == Flatten(b) && a != [] && b != []
    ensures |b[0]| <= |a[0]|
  {
    var s, n := Flatten(a), |a[0]|;
    if |b[0]| > n {
      assert s[..n] == a[0] && s[..|b[0]|] == b[0];
      SecondGroup(c, a);
      var longer := a[0] + [a[1][0]];
      assert FullBefore(c, a, 1);
      assert longer <= b[0];
      BeginningOk(c, b[0], longer);
    }
  }

  /** The groups one after the other. */
  lemma {:induction false} FlattenExact(groups: seq<seq<PointRef>>)
    ensures IsConcat(groups, Flatten(groups))
    decreases |groups|
  {
    hide IsConcat;
    if groups == [] {
      ConcatNone<PointRef>();
    } else {
      var front, last := groups[..|groups| - 1], groups[|groups| - 1];
      FlattenExact(front);
      FlattenAppend(front, last);
      ConcatMore(front, Flatten(front), last);
      assert groups == front + [last];
    }
  }

  lemma {:induction false} FlattenAppend(groups: seq<seq<PointRef>>, g: seq<PointRef>)
    ensures Flatten(groups + [g]) == Flatten(groups) + g
  {
    if groups == [] {
      assert Flatten([g]) == g + Flatten([]);
      assert groups + [g] == [g];
    } else {
      FlattenAppend(groups[1..], g);
      assert (groups + [g])[1..] == groups[1..] + [g];
    }
  }

  ghost predicate NonEmpty(groups: seq<seq<PointRef>>) { forall k :: 0 <= k < |groups| ==> groups[k] != [] }

  /** How many neighbouring groups share a slot. */
  ghost function SharedSlots(c: Rules, groups: seq<seq<PointRef>>): nat
    requires NonEmpty(groups)
  {
    if |groups| <= 1 then 0
    else
      SharedSlots(c, groups[..|groups| - 1])
      + if SameSlot(c, Last(groups[|groups| - 2]), groups[|groups| - 1][0]) then 1 else 0
  }

  lemma SharedAppend(c: Rules, groups: seq<seq<PointRef>>, g: seq<PointRef>)
    requires NonEmpty(groups) && g != []
    ensures NonEmpty(groups + [g])
    ensures SharedSlots(c, groups + [g]) == SharedSlots(c, groups) +
            if groups != [] && SameSlot(c, Last(groups[|groups| - 1]), g[0]) then 1 else 0
  {
    assert (groups + [g])[..|groups|] == groups;
  }

  // ----- buckets

  datatype Bucket = Bucket(
    bucketId: int, startTs: int, endTs: int, startAbsSlot: int, endAbsSlot: int, recordCount: nat,
    nextBucketId: int, occupied: seq<int>, localSlot: map<int, nat>)

  /** The bucket describes the records of g: their time span, and their slots numbered in order. */
  ghost predicate BucketOk(c: Rules, g: seq<PointRef>, b: Bucket, k: nat) {
    && g != [] && b.bucketId == k && b.recordCount == |g|
    && b.startTs == g[0].timestamp && b.endTs == Last(g).timestamp
    && b.occupied == SlotsOf(c, g)
    && b.startAbsSlot == c.slotOf(b.startTs) && b.endAbsSlot == c.slotOf(b.endTs)
    && b.localSlot.Keys == (set s | s in b.occupied)
    && forall i :: 0 <= i < |b.occupied| ==> b.localSlot[b.occupied[i]] == i
  }

  ghost predicate BucketsOk(c: Rules, groups: seq<seq<PointRef>>, buckets: seq<Bucket>) {
    |buckets| == |groups| && forall k :: 0 <= k < |buckets| ==> BucketOk(c, groups[k], buckets[k], k)
  }

  /** The chain of next buckets runs through all of them and ends with -1. */
  predicate Linked(buckets: seq<Bucket>) {
    forall k :: 0 <= k < |buckets| ==> buckets[k].nextBucketId == if k + 1 < |buckets| then k + 1 else -1
  }

  ghost predicate HasRecord(g: seq<PointRef>, id: int) { exists i :: 0 <= i < |g| && g[i].recordId == id }

  /** Each record id is mapped to the last group that has it. */
  ghost predicate RecordsOk(groups: seq<seq<PointRef>>, m: map<int, int>) {
    forall id ::
      && (id in m <==> exists k :: 0 <= k < |groups| && HasRecord(groups[k], id))
      && (id in m ==> 0 <= m[id] < |groups| && HasRecord(groups[m[id]], id)
                      && forall k :: m[id] < k < |groups| ==> !HasRecord(groups[k], id))
  }

  lemma RecordsAppend(groups: seq<seq<PointRef>>, g: seq<PointRef>, m: map<int, int>, m': map<int, int>)
    requires RecordsOk(groups, m)
    requires forall id ::
               && (id in m' <==> id in m || HasRecord(g, id))
               && (id in m' ==> m'[id] == if HasRecord(g, id) then |groups| else m[id])
    ensures RecordsOk(groups + [g], m')
  {
    var all := groups + [g];
    assert forall k :: 0 <= k < |groups| ==> all[k] == groups[k];
    forall id
      ensures id in m' <==> exists k :: 0 <= k < |all| && HasRecord(all[k], id)
      ensures id in m' ==> 0 <= m'[id] < |all| && HasRecord(all[m'[id]], id)
                           && forall k :: m'[id] < k < |all| ==> !HasRecord(all[k], id)
    {
      if HasRecord(g, id) { assert HasRecord(all[|groups|], id); }
      if k :| 0 <= k < |groups| && HasRecord(groups[k], id) { assert HasRecord(all[k], id); }
    }
  }

  /** The first bucket that ends at ts or later, -1 if none does. */
  function FirstEndAtLeast(buckets: seq<Bucket>, ts: int): (k: int)
    ensures -1 <= k < |buckets|
    ensures k == -1 ==> forall j :: 0 <= j < |buckets| ==> buckets[j].endTs < ts
    ensures k >= 0 ==> buckets[k].endTs >= ts && forall j :: 0 <= j < k ==> buckets[j].endTs < ts
  {
    if buckets == [] then -1
    else
      var k := FirstEndAtLeast(buckets[..|buckets| - 1], ts);
      if k >= 0 then k else if buckets[|buckets| - 1].endTs >= ts then |buckets| - 1 else -1
  }

  // ----- buckets are in order of time

  lemma {:induction false} InSomeGroup(groups: seq<seq<PointRef>>, k: nat, p: PointRef)
    requires k < |groups| && p in groups[k]
    ensures p in Flatten(groups)
  {
    if k > 0 { InSomeGroup(groups[1..], k - 1, p); }
  }

  /** What is in an earlier part is not later. */
  lemma SplitInTime(a: seq<PointRef>, b: seq<PointRef>)
    requires InTime(a + b)
    ensures InTime(a) && InTime(b)
    ensures forall p, q :: p in a && q in b ==> p.timestamp <= q.timestamp
  {
    var all := a + b;
    forall i, j | 0 <= i < j < |a| ensures a[i].timestamp <= a[j].timestamp { assert all[i] == a[i] && all[j] == a[j]; }
    forall i, j | 0 <= i < j < |b| ensures b[i].timestamp <= b[j].timestamp {
      assert all[|a| + i] == b[i] && all[|a| + j] == b[j];
    }
    forall p, q | p in a && q in b ensures p.timestamp <= q.timestamp {
      var i :| 0 <= i < |a| && a[i] == p;
      var j :| 0 <= j < |b| && b[j] == q;
      assert all[i] == p && all[|a| + j] == q;
    }
  }

  lemma {:induction false} GroupInTime(groups: seq<seq<PointRef>>, k: nat)
    requires InTime(Flatten(groups)) && k < |groups|
    ensures InTime(groups[k])
  {
    SplitInTime(groups[0], Flatten(groups[1..]));
    if k > 0 { GroupInTime(groups[1..], k - 1); }
  }

  lemma {:induction false} GroupsInTime(groups: seq<seq<PointRef>>, j: nat, k: nat, p: PointRef, q: PointRef)
    requires InTime(Flatten(groups)) && j < k < |groups| && p in groups[j] && q in groups[k]
    ensures p.timestamp <= q.timestamp
  {
    SplitInTime(groups[0], Flatten(groups[1..]));
    if j > 0 {
      GroupsInTime(groups[1..], j - 1, k - 1, p, q);
    } else {
      InSomeGroup(groups[1..], k - 1, q);
    }
  }

  /** The buckets are numbered, and none begins before an earlier one ends. */
  ghost predicate Ordered(buckets: seq<Bucket>) {
    && (forall k :: 0 <= k < |buckets| ==> buckets[k].bucketId == k)
    && (forall k :: 0 <= k < |buckets| ==> buckets[k].startTs <= buckets[k].endTs)
    && forall j, k :: 0 <= j < k < |buckets| ==> buckets[j].endTs <= buckets[k].startTs
  }

  lemma BucketsOrdered(c: Rules, groups: seq<seq<PointRef>>, buckets: seq<Bucket>)
    requires BucketsOk(c, groups, buckets) && InTime(Flatten(groups))
    ensures Ordered(buckets)
  {
    forall k | 0 <= k < |buckets| ensures buckets[k].bucketId == k && buckets[k].startTs <= buckets[k].endTs {
      assert BucketOk(c, groups[k], buckets[k], k);
      GroupInTime(groups, k);
    }
    forall j, k | 0 <= j < k < |buckets| ensures buckets[j].endTs <= buckets[k].startTs {
      assert BucketOk(c, groups[j], buckets[j], j) && BucketOk(c, groups[k], buckets[k], k);
      GroupsInTime(groups, j, k, Last(groups[j]), groups[k][0]);
    }
  }

  // ----- the locator

  /** The first bucket found by binary search that ends at ts or later, -1 if there is none. */
  function FirstBucketWithEndAtLeast(buckets: seq<Bucket>, ts: int): int {
    var k := PartitionPoint((i: nat) => i < |buckets| && buckets[i].endTs < ts, 0, |buckets|);
    if k < |buckets| then buckets[k].bucketId else -1
  }

  /** On buckets in order of time the binary search finds the first one. */
  lemma FirstBucketIsFirst(buckets: seq<Bucket>, ts: int)
    requires Ordered(buckets)
    ensures FirstBucketWithEndAtLeast(buckets, ts) == FirstEndAtLeast(buckets, ts)
  {
    var below := (i: nat) => i < |buckets| && buckets[i].endTs < ts;
    forall i: nat, j: nat | 0 <= i < j < |buckets| && below(j) ensures below(i) {
      assert buckets[i].endTs <= buckets[j].startTs <= buckets[j].endTs;
    }
    PartitionPointExact(below, 0, |buckets|);
    var k := PartitionPoint(below, 0, |buckets|);
    forall i: nat | i < k ensures buckets[i].endTs < ts { assert below(i); }
  }

  datatype DayEntry = DayEntry(firstBucketId: int, slotToBucket: seq<int>)

  predicate EntryOk(c: Config, buckets: seq<Bucket>, day: int, e: DayEntry) {
    && |e.slotToBucket| == LOCATOR_SLOTS_PER_DAY && e.firstBucketId == e.slotToBucket[0]
    && forall slot :: 0 <= slot < LOCATOR_SLOTS_PER_DAY ==>
         e.slotToBucket[slot] == FirstEndAtLeast(buckets, day + slot * c.timeSlotSeconds)
  }

  /** Every entry is right, and every day from that of the first record to that of the last has one. */
  predicate LocatorOk(c: Config, buckets: seq<Bucket>, locator: map<int, DayEntry>) {
    && (forall day :: day in locator ==> EntryOk(c, buckets, day, locator[day]))
    && (buckets != [] ==> forall ts :: buckets[0].startTs <= ts <= Last(buckets).endTs ==> DayStart(ts) in locator)
  }

  function Last<T>(s: seq<T>): T
    requires s != []
  {
    s[|s| - 1]
  }

  predicate SameSlot(c: Rules, p: PointRef, q: PointRef) { c.slotOf(p.timestamp) == c.slotOf(q.timestamp) }

  function PointKey(p: PointRef): Key { (p.timestamp, p.recordId) }

  // ----- the cutting in terms of the configuration

  /** The slot's span has the instant. */
  ghost predicate SlotIs(c: Config, ts: int, slot: int) {
    slot * c.timeSlotSeconds <= ts < (slot + 1) * c.timeSlotSeconds
  }

  ghost function SlotSet(c: Config, g: seq<PointRef>): set<int>
    requires c.Ok()
  {
    set i | 0 <= i < |g| :: g[i].timestamp / c.timeSlotSeconds
  }

  lemma SlotOfInstant(c: Config, ts: int)
    requires c.Ok()
    ensures SlotIs(c, ts, ts / c.timeSlotSeconds) && c.Limits().slotOf(ts) == ts / c.timeSlotSeconds
  {
    FloorDivRoundsDown(ts, c.timeSlotSeconds);
  }

  /** A group of records that one bucket may hold: no more than the largest number of records, in no more
      than the largest number of slots, and from the target number on all in one slot. */
  ghost predicate FitsBucket(c: Config, g: seq<PointRef>)
    requires c.Ok()
  {
    && 0 < |g| <= c.maxRecords && |SlotSet(c, g)| <= c.maxOccupiedSlots
    && forall i :: c.targetRecords - 1 <= i < |g| ==>
         g[i].timestamp / c.timeSlotSeconds == g[|g| - 1].timestamp / c.timeSlotSeconds
  }

  /** Each group fits a bucket, but not together with the first record of the next group. */
  ghost predicate CutGreedily(c: Config, groups: seq<seq<PointRef>>)
    requires c.Ok()
  {
    && (forall k :: 0 <= k < |groups| ==> FitsBucket(c, groups[k]))
    && forall k :: 0 < k < |groups| ==> CutBefore(c, groups, k)
  }

  ghost predicate CutBefore(c: Config, groups: seq<seq<PointRef>>, k: nat)
    requires c.Ok() && 0 < k < |groups|
  {
    groups[k] != [] && !FitsBucket(c, groups[k - 1] + [groups[k][0]])
  }

  lemma SlotsCounted(c: Config, g: seq<PointRef>)
    requires c.Ok() && InTime(g)
    ensures |SlotSet(c, g)| == |SlotsOf(c.Limits(), g)|
  {
    hide SlotsOf, Increasing;
    RulesOk(c);
    var slots := SlotsOf(c.Limits(), g);
    SlotsOfIncreasing(c.Limits(), g);
    IncreasingDistinct(slots);
    DistinctCounted(slots);
    forall slot ensures slot in SlotSet(c, g) <==> slot in slots {
      SlotsOfExact(c.Limits(), g, slot);
      SlotsOfRecords(c, g, slot);
    }
    assert SlotSet(c, g) == Members(slots);
  }

  lemma IncreasingDistinct(s: seq<int>)
    requires Increasing(s)
    ensures Distinct(s)
  {}

  lemma SlotsOfRecords(c: Config, g: seq<PointRef>, slot: int)
    requires c.Ok()
    ensures slot in SlotSet(c, g) <==> HasSlot(c.Limits(), g, slot)
  {
    forall i | 0 <= i < |g| ensures c.Limits().slotOf(g[i].timestamp) == g[i].timestamp / c.timeSlotSeconds {
      SlotOfInstant(c, g[i].timestamp);
    }
  }

  lemma FitsIffOk(c: Config, g: seq<PointRef>)
    requires c.Ok() && InTime(g)
    ensures FitsBucket(c, g) <==> GroupOk(c.Limits(), g)
  {
    hide SlotSet, SlotsOf, SlotIs;
    SlotsCounted(c, g);
    forall i | 0 <= i < |g| ensures c.Limits().slotOf(g[i].timestamp) == g[i].timestamp / c.timeSlotSeconds {
      SlotOfInstant(c, g[i].timestamp);
    }
  }

  lemma NextInTime(groups: seq<seq<PointRef>>, k: nat)
    requires InTime(Flatten(groups)) && 0 < k < |groups| && groups[k] != []
    ensures InTime(groups[k - 1] + [groups[k][0]])
  {
    hide Flatten;
    GroupInTime(groups, k - 1);
    forall p | p in groups[k - 1] ensures p.timestamp <= groups[k][0].timestamp {
      GroupsInTime(groups, k - 1, k, p, groups[k][0]);
    }
  }

  /** The greedy groups of the rules are those of the configuration. */
  lemma GreedyIsCut(c: Config, groups: seq<seq<PointRef>>)
    requires c.Ok() && InTime(Flatten(groups)) && Greedy(c.Limits(), groups)
    ensures CutGreedily(c, groups)
  {
    hide FitsBucket, GroupOk, Flatten, InTime;
    forall k | 0 <= k < |groups| ensures FitsBucket(c, groups[k]) {
      GroupInTime(groups, k);
      FitsIffOk(c, groups[k]);
    }
    forall k | 0 < k < |groups| ensures CutBefore(c, groups, k) {
      assert FullBefore(c.Limits(), groups, k);
      NextInTime(groups, k);
      FitsIffOk(c, groups[k - 1] + [groups[k][0]]);
    }
  }

  /** The groups that begin in the slot in which the group before them ends. */
  ghost function SplitAt(c: Config, groups: seq<seq<PointRef>>): set<nat>
    requires c.Ok() && NonEmpty(groups)
  {
    set k: nat | 0 < k < |groups| && SplitsAt(c, groups, k)
  }

  ghost predicate SplitsAt(c: Config, groups: seq<seq<PointRef>>, k: nat)
    requires c.Ok() && NonEmpty(groups) && 0 < k < |groups|
  {
    groups[k - 1][|groups[k - 1]| - 1].timestamp / c.timeSlotSeconds == groups[k][0].timestamp / c.timeSlotSeconds
  }

  lemma SplitsFront(c: Config, groups: seq<seq<PointRef>>, k: nat)
    requires c.Ok() && NonEmpty(groups) && 0 < k < |groups| - 1
    ensures SplitsAt(c, groups[..|groups| - 1], k) <==> SplitsAt(c, groups, k)
  {}

  lemma SplitsLast(c: Config, groups: seq<seq<PointRef>>)
    requires c.Ok() && NonEmpty(groups) && |groups| > 1
    ensures var k := |groups| - 1;
            SameSlot(c.Limits(), Last(groups[k - 1]), groups[k][0]) <==> SplitsAt(c, groups, k)
  {
    SlotOfInstant(c, Last(groups[|groups| - 2]).timestamp);
    SlotOfInstant(c, groups[|groups| - 1][0].timestamp);
  }

  lemma {:induction false} SharedCounted(c: Config, groups: seq<seq<PointRef>>)
    requires c.Ok() && NonEmpty(groups)
    ensures SharedSlots(c.Limits(), groups) == |SplitAt(c, groups)|
    decreases |groups|
  {
    hide SplitsAt, SameSlot;
    if |groups| > 1 {
      var k := |groups| - 1;
      SharedCounted(c, groups[..k]);
      SplitsLast(c, groups);
      forall j: nat | 0 < j < k ensures SplitsAt(c, groups, j) <==> SplitsAt(c, groups[..k], j) {
        SplitsFront(c, groups, j);
      }
      assert SplitAt(c, groups) == SplitAt(c, groups[..k]) + if SplitsAt(c, groups, k) then {k} else {};
    }
  }
}
