/** Counting Bloom filters: the plain one counts an object in all its cells, the minimum-increase
    one only in those that hold the smallest count. */
module CountingFilters {
  import opened Arith
  import opened Bloom
  import opened CounterVectors
  import opened Sorting

  // ----- the cells of an object

  /** The cells of the first n digests, in the order of the digests. */
  function Digested(s: Shape, o: string, n: nat): (cells: seq<int>)
    requires s.Valid() && n <= s.k
    ensures |cells| == n && forall i :: 0 <= i < n ==> cells[i] == s.Cell(i, s.hash(o)[i])
  {
    if n == 0 then [] else Digested(s, o, n - 1) + [s.Cell(n - 1, s.hash(o)[n - 1])]
  }

  ghost predicate HasCell(s: Shape, o: string, c: int)
    requires s.Valid()
  {
    c in Digested(s, o, s.k)
  }

  /** Cells of the filter in increasing order, each once. */
  ghost predicate CellsOk(s: Shape, indices: seq<int>) {
    Increasing(indices) && forall i :: 0 <= i < |indices| ==> 0 <= indices[i] < s.cells
  }

  /** The cells of an object, in increasing order and each once. */
  function Indices(s: Shape, o: string): (indices: seq<int>)
    requires s.Valid()
    ensures CellsOk(s, indices) && indices != []
    ensures forall c :: c in indices <==> HasCell(s, o, c)
  {
    IndicesExact(s, o);
    Unique(Sort(IntKey, Digested(s, o, s.k)))
  }

  lemma IndicesExact(s: Shape, o: string)
    requires s.Valid()
    ensures var indices := Unique(Sort(IntKey, Digested(s, o, s.k)));
            CellsOk(s, indices) && indices != [] && forall c :: c in indices <==> HasCell(s, o, c)
  {
    hide Unique, Sort, Digested;
    var cells := Digested(s, o, s.k);
    var sorted := Sort(IntKey, cells);
    SortSorts(IntKey, cells);
    UniqueOfSorted(sorted);
    forall c ensures c in sorted <==> c in cells {
      assert c in sorted <==> c in multiset(sorted);
      assert c in cells <==> c in multiset(cells);
    }
    forall i | 0 <= i < |Unique(sorted)| ensures 0 <= Unique(sorted)[i] < s.cells {
      assert Unique(sorted)[i] in cells;
    }
  }

  /** Some digest of o falls on c. */
  ghost predicate LandsAt(s: Shape, o: string, c: int)
    requires s.Valid()
  {
    exists i :: 0 <= i < s.k && s.Lands(i, s.hash(o)[i], c)
  }

  /** The cells of an object are the places where its digests fall. */
  lemma IndicesLand(s: Shape, o: string, c: int)
    requires s.Valid()
    ensures c in Indices(s, o) <==> LandsAt(s, o, c)
  {
    hide Indices, Shape.Cell, Shape.Lands;
    var cells := Digested(s, o, s.k);
    forall i | 0 <= i < s.k ensures s.Lands(i, s.hash(o)[i], c) <==> c == cells[i] {
      CellLands(s, i, s.hash(o)[i], c);
    }
  }

  // ----- counting in some cells

  ghost predicate InCells(cs: seq<nat>, indices: seq<int>) { forall i :: 0 <= i < |indices| ==> 0 <= indices[i] < |cs| }

  function AddedAll(cs: seq<nat>, indices: seq<int>, v: nat, width: nat): (cs': seq<nat>)
    requires InCells(cs, indices)
    ensures |cs'| == |cs|
  {
    if indices == [] then cs
    else
      var cs', c := AddedAll(cs, indices[..|indices| - 1], v, width), indices[|indices| - 1];
      cs'[c := Added(cs'[c], v, width)]
  }

  function SubtractedAll(cs: seq<nat>, indices: seq<int>, v: nat, width: nat): (cs': seq<nat>)
    requires InCells(cs, indices)
    ensures |cs'| == |cs|
  {
    if indices == [] then cs
    else
      var cs', c := SubtractedAll(cs, indices[..|indices| - 1], v, width), indices[|indices| - 1];
      cs'[c := Subtracted(cs'[c], v, width)]
  }

  /** Each of the cells is counted in once, no other is touched. */
  lemma {:induction false} AddedAllAt(cs: seq<nat>, indices: seq<int>, v: nat, width: nat, c: nat)
    requires InCells(cs, indices) && Increasing(indices) && c < |cs|
    ensures AddedAll(cs, indices, v, width)[c] == if c in indices then Added(cs[c], v, width) else cs[c]
  {
    hide Increasing, Added;
    if indices != [] {
      var front, last := indices[..|indices| - 1], indices[|indices| - 1];
      IncreasingFront(indices);
      AddedAllAt(cs, front, v, width, c);
    }
  }

  lemma {:induction false} SubtractedAllAt(cs: seq<nat>, indices: seq<int>, v: nat, width: nat, c: nat)
    requires InCells(cs, indices) && Increasing(indices) && c < |cs|
    ensures SubtractedAll(cs, indices, v, width)[c] == if c in indices then Subtracted(cs[c], v, width) else cs[c]
  {
    hide Increasing, Subtracted;
    if indices != [] {
      var front, last := indices[..|indices| - 1], indices[|indices| - 1];
      IncreasingFront(indices);
      SubtractedAllAt(cs, front, v, width, c);
    }
  }

  /** When its turn comes, cell number k of the list takes the value without sticking. */
  ghost predicate Room(cs: seq<nat>, indices: seq<int>, k: int, v: nat, width: nat)
    requires InCells(cs, indices) && 0 <= k < |indices|
  {
    AddedAll(cs, indices[..k], v, width)[indices[k]] + v % Pow2(width) <= MaxValue(width)
  }

  /** When its turn comes, cell number k of the list holds at least the value. */
  ghost predicate Enough(cs: seq<nat>, indices: seq<int>, k: int, v: nat, width: nat)
    requires InCells(cs, indices) && 0 <= k < |indices|
  {
    0 < v % Pow2(width) <= SubtractedAll(cs, indices[..k], v, width)[indices[k]]
  }

  ghost predicate NoneSticks(cs: seq<nat>, indices: seq<int>, v: nat, width: nat)
    requires InCells(cs, indices)
  {
    forall k :: 0 <= k < |indices| ==> Room(cs, indices, k, v, width)
  }

  ghost predicate NoneWraps(cs: seq<nat>, indices: seq<int>, v: nat, width: nat)
    requires InCells(cs, indices)
  {
    forall k :: 0 <= k < |indices| ==> Enough(cs, indices, k, v, width)
  }

  lemma IncreasingPrefix(s: seq<int>, k: nat)
    requires Increasing(s) && k < |s|
    ensures Increasing(s[..k]) && s[k] !in s[..k]
  {}

  /** On different cells the reports speak of the counts before. */
  lemma ReportsExact(cs: seq<nat>, indices: seq<int>, v: nat, width: nat)
    requires InCells(cs, indices) && Increasing(indices)
    ensures NoneSticks(cs, indices, v, width) <==> forall c :: c in indices ==>
              cs[c] + v % Pow2(width) <= MaxValue(width)
    ensures NoneWraps(cs, indices, v, width) <==> forall c :: c in indices ==> 0 < v % Pow2(width) <= cs[c]
  {
    hide Increasing;
    forall k | 0 <= k < |indices|
      ensures Room(cs, indices, k, v, width) <==> cs[indices[k]] + v % Pow2(width) <= MaxValue(width)
      ensures Enough(cs, indices, k, v, width) <==> 0 < v % Pow2(width) <= cs[indices[k]]
    {
      IncreasingPrefix(indices, k);
      AddedAllAt(cs, indices[..k], v, width, indices[k]);
      SubtractedAllAt(cs, indices[..k], v, width, indices[k]);
    }
  }

  /** Removing an object right after adding it undoes that, unless one of its counters was stuck. */
  lemma RemoveUndoesAdd(cs: seq<nat>, indices: seq<int>, v: nat, width: nat)
    requires InCells(cs, indices) && Increasing(indices)
    requires forall c :: c in indices ==> cs[c] + v % Pow2(width) <= MaxValue(width)
    ensures SubtractedAll(AddedAll(cs, indices, v, width), indices, v, width) == cs
  {
    var cs' := AddedAll(cs, indices, v, width);
    forall c | 0 <= c < |cs| ensures SubtractedAll(cs', indices, v, width)[c] == cs[c] {
      AddedAllAt(cs, indices, v, width, c);
      SubtractedAllAt(cs', indices, v, width, c);
      if c in indices { SubtractUndoesAdd(cs[c], v, width); }
    }
  }

  // ----- minima

  /** The smallest of the counts, at most max. */
  function MinAt(cs: seq<nat>, indices: seq<int>, max: nat): (m: nat)
    requires InCells(cs, indices)
    ensures m <= max && forall c :: c in indices ==> m <= cs[c]
    ensures m == max || exists c :: c in indices && m == cs[c]
  {
    if indices == [] then max
    else
      MinStep(cs, indices, max);
      Min(MinAt(cs, indices[..|indices| - 1], max), cs[indices[|indices| - 1]])
  }

  lemma MinStep(cs: seq<nat>, indices: seq<int>, max: nat)
    requires InCells(cs, indices) && indices != []
    ensures indices == indices[..|indices| - 1] + [indices[|indices| - 1]]
  {}

  /** A smaller count in every cell makes for a smaller minimum. */
  lemma MinMonotone(cs: seq<nat>, ds: seq<nat>, indices: seq<int>, max: nat)
    requires |cs| == |ds| && InCells(cs, indices) && forall c :: c in indices ==> cs[c] <= ds[c]
    ensures MinAt(cs, indices, max) <= MinAt(ds, indices, max)
  {}

  /** The cells with a given count, in order. */
  function CellsWith(cs: seq<nat>, indices: seq<int>, count: nat): (found: seq<int>)
    requires InCells(cs, indices)
    ensures InCells(cs, found) && forall c :: c in found <==> c in indices && cs[c] == count
  {
    if indices == [] then []
    else
      MinStep(cs, indices, count);
      var c := indices[|indices| - 1];
      CellsWith(cs, indices[..|indices| - 1], count) + if cs[c] == count then [c] else []
  }

  lemma {:induction false} CellsWithIncreasing(cs: seq<nat>, indices: seq<int>, count: nat)
    requires InCells(cs, indices) && Increasing(indices)
    ensures Increasing(CellsWith(cs, indices, count))
  {
    if indices != [] {
      hide Increasing;
      var front, last := indices[..|indices| - 1], indices[|indices| - 1];
      IncreasingFront(indices);
      CellsWithIncreasing(cs, front, count);
      IncreasingAppend(CellsWith(cs, front, count), last);
    }
  }

  lemma {:induction false} NoCellsBelow(cs: seq<nat>, indices: seq<int>, count: nat)
    requires InCells(cs, indices) && forall c :: c in indices ==> cs[c] > count
    ensures CellsWith(cs, indices, count) == []
  {
    if indices != [] { NoCellsBelow(cs, indices[..|indices| - 1], count); }
  }

  /** The cells with the smallest count. */
  function Minima(cs: seq<nat>, indices: seq<int>, max: nat): seq<int>
    requires InCells(cs, indices)
  {
    CellsWith(cs, indices, MinAt(cs, indices, max))
  }

  /** One more cell: a smaller count starts the list anew. */
  lemma MinimaStep(cs: seq<nat>, indices: seq<int>, k: nat, max: nat)
    requires InCells(cs, indices) && k < |indices| && InCells(cs, indices[..k])
    ensures InCells(cs, indices[..k + 1]) && 0 <= indices[k] < |cs|
    ensures var c, m := indices[k], MinAt(cs, indices[..k], max);
            && MinAt(cs, indices[..k + 1], max) == Min(m, cs[c])
            && Minima(cs, indices[..k + 1], max) ==
               if cs[c] < m then [c] else Minima(cs, indices[..k], max) + if cs[c] == m then [c] else []
  {
    hide Min;
    var c, m, front := indices[k], MinAt(cs, indices[..k], max), indices[..k + 1];
    assert front[..k] == indices[..k] && front[k] == c;
    if cs[c] < m { NoCellsBelow(cs, indices[..k], cs[c]); }
    assert Min(m, cs[c]) == if cs[c] < m then cs[c] else m by { MinOf(m, cs[c]); }
  }

  lemma NoMinima(cs: seq<nat>, indices: seq<int>, max: nat)
    ensures InCells(cs, indices[..0])
    ensures MinAt(cs, indices[..0], max) == max && Minima(cs, indices[..0], max) == []
  {}

  lemma MinOf(a: int, b: int)
    ensures Min(a, b) == if b < a then b else a
  {}

  // ----- whole histories

  function Zeros(n: nat): seq<nat> { seq(n, _ => 0) }

  /** The counters of the plain filter after some objects were added. */
  function CountingRun(s: Shape, width: nat, history: seq<string>): (cs: seq<nat>)
    requires s.Valid()
    ensures |cs| == s.cells
  {
    if history == [] then Zeros(s.cells)
    else AddedAll(CountingRun(s, width, history[..|history| - 1]), Indices(s, history[|history| - 1]), 1, width)
  }

  /** The counters of the minimum-increase filter. */
  function MinIncreaseRun(s: Shape, width: nat, history: seq<string>): (cs: seq<nat>)
    requires s.Valid()
    ensures |cs| == s.cells
  {
    if history == [] then Zeros(s.cells)
    else MinIncreased(s, width, MinIncreaseRun(s, width, history[..|history| - 1]), history[|history| - 1])
  }

  function MinIncreased(s: Shape, width: nat, cs: seq<nat>, o: string): (cs': seq<nat>)
    requires s.Valid() && |cs| == s.cells
    ensures |cs'| == |cs|
  {
    AddedAll(cs, Minima(cs, Indices(s, o), MaxValue(width)), 1, width)
  }

  function Times(history: seq<string>, o: string): nat {
    if history == [] then 0 else Times(history[..|history| - 1], o) + if history[|history| - 1] == o then 1 else 0
  }

  /** It is how often the object was added. */
  lemma {:induction false} TimesExact(history: seq<string>, o: string)
    ensures Times(history, o) == multiset(history)[o]
  {
    if history != [] {
      var front, last := history[..|history| - 1], history[|history| - 1];
      TimesExact(front, o);
      assert history == front + [last];
    }
  }

  /** How many of the added objects have the cell. */
  ghost function CellTimes(s: Shape, history: seq<string>, c: int): nat
    requires s.Valid()
  {
    if history == [] then 0
    else CellTimes(s, history[..|history| - 1], c) + if HasCell(s, history[|history| - 1], c) then 1 else 0
  }

  /** Counted over the additions, by where the digests of each object fall. */
  lemma {:induction false} CellTimesExact(s: Shape, history: seq<string>, c: int)
    requires s.Valid()
    ensures CellTimes(s, history, c) == |Landing(s, history, c)|
  {
    hide LandsAt, HasCell, Digested;
    if history != [] {
      var last := |history| - 1;
      var front := history[..last];
      CellTimesExact(s, front, c);
      IndicesLand(s, history[last], c);
      assert Landing(s, history, c) == Landing(s, front, c) + if HasCell(s, history[last], c) then {last} else {};
    }
  }

  /** The additions whose object has a digest that falls on c. */
  ghost function Landing(s: Shape, history: seq<string>, c: int): set<nat>
    requires s.Valid()
  {
    set n: nat | n < |history| && LandsAt(s, history[n], c)
  }

  lemma AddedOne(was: nat, width: nat)
    requires width > 0
    ensures Added(was, 1, width) == Min(was + 1, MaxValue(width))
  {
    Pow2Grows(0, width);
    DivModUnique(1, Pow2(width), 0, 1);
  }

  /** A counter of the plain filter is exact until it sticks. */
  lemma {:induction false} CountingExact(s: Shape, width: nat, history: seq<string>, c: nat)
    requires s.Valid() && width > 0 && c < s.cells
    ensures CountingRun(s, width, history)[c] == Min(CellTimes(s, history, c), MaxValue(width))
  {
    if history != [] {
      var front, o := history[..|history| - 1], history[|history| - 1];
      CountingExact(s, width, front, c);
      AddedAllAt(CountingRun(s, width, front), Indices(s, o), 1, width, c);
      AddedOne(CountingRun(s, width, front)[c], width);
    }
  }

  // ----- histories with removals

  datatype Change = Insert(o: string) | Remove(o: string)

  /** The objects that are in the filter after some changes, each as often as it is in. */
  ghost function BagAfter(history: seq<Change>): multiset<string> {
    if history == [] then multiset{}
    else
      var bag := BagAfter(history[..|history| - 1]);
      match history[|history| - 1]
      case Insert(o) => bag + multiset{o}
      case Remove(o) => bag - multiset{o}
  }

  /** The counters of the plain filter after some changes. */
  function ChangeRun(s: Shape, width: nat, history: seq<Change>): (cs: seq<nat>)
    requires s.Valid()
    ensures |cs| == s.cells
  {
    if history == [] then Zeros(s.cells)
    else
      var cs := ChangeRun(s, width, history[..|history| - 1]);
      match history[|history| - 1]
      case Insert(o) => AddedAll(cs, Indices(s, o), 1, width)
      case Remove(o) => SubtractedAll(cs, Indices(s, o), 1, width)
  }

  /** How many objects of a bag have the cell. */
  ghost function Users(s: Shape, bag: multiset<string>, c: int): nat
    requires s.Valid()
    decreases |bag|
  {
    if bag == multiset{} then 0
    else
      var o :| o in bag;
      Users(s, bag - multiset{o}, c) + if HasCell(s, o, c) then 1 else 0
  }

  lemma FirstUser(s: Shape, bag: multiset<string>, c: int) returns (p: string)
    requires s.Valid() && bag != multiset{}
    ensures p in bag && Users(s, bag, c) == Users(s, bag - multiset{p}, c) + if HasCell(s, p, c) then 1 else 0
  {
    hide HasCell;
    p :| p in bag && Users(s, bag, c) == Users(s, bag - multiset{p}, c) + if HasCell(s, p, c) then 1 else 0;
  }

  /** The number does not depend on the order in which the objects are taken. */
  lemma {:induction false} UsersWithout(s: Shape, bag: multiset<string>, c: int, o: string)
    requires s.Valid() && o in bag
    ensures Users(s, bag, c) == Users(s, bag - multiset{o}, c) + if HasCell(s, o, c) then 1 else 0
    decreases |bag|
  {
    hide HasCell, Users, Shape.Valid;
    var p := FirstUser(s, bag, c);
    if p != o {
      UsersWithout(s, bag - multiset{p}, c, o);
      UsersWithout(s, bag - multiset{o}, c, p);
      assert bag - multiset{p} - multiset{o} == bag - multiset{o} - multiset{p};
    }
  }

  /** An object that has the cell is counted there as often as it is in the bag. */
  lemma {:induction false} UsersAtLeast(s: Shape, bag: multiset<string>, c: int, o: string)
    requires s.Valid() && HasCell(s, o, c)
    ensures Users(s, bag, c) >= bag[o]
    decreases |bag|
  {
    if o in bag {
      UsersWithout(s, bag, c, o);
      UsersAtLeast(s, bag - multiset{o}, c, o);
    }
  }

  /** The last change removes an object that is there, or adds one whose counters have room. */
  ghost predicate Sound(s: Shape, width: nat, bag: multiset<string>, change: Change)
    requires s.Valid()
  {
    match change
    case Insert(o) => forall c :: c in Indices(s, o) ==> Users(s, bag, c) < MaxValue(width)
    case Remove(o) => o in bag
  }

  ghost predicate AllSound(s: Shape, width: nat, history: seq<Change>)
    requires s.Valid()
  {
    forall k :: 0 <= k < |history| ==> Sound(s, width, BagAfter(history[..k]), history[k])
  }

  lemma SoundFront(s: Shape, width: nat, history: seq<Change>)
    requires s.Valid() && AllSound(s, width, history) && history != []
    ensures AllSound(s, width, history[..|history| - 1])
    ensures Sound(s, width, BagAfter(history[..|history| - 1]), history[|history| - 1])
  {
    var front := history[..|history| - 1];
    forall k | 0 <= k < |front| ensures Sound(s, width, BagAfter(front[..k]), front[k]) {
      assert front[..k] == history[..k] && Sound(s, width, BagAfter(history[..k]), history[k]);
    }
  }

  /** One change in one cell. */
  lemma ChangeCell(s: Shape, width: nat, cs: seq<nat>, bag: multiset<string>, change: Change, c: nat)
    requires s.Valid() && width > 0 && |cs| == s.cells > c && Sound(s, width, bag, change)
    requires cs[c] == Users(s, bag, c) <= MaxValue(width)
    ensures change.Insert? ==>
              var next := bag + multiset{change.o};
              AddedAll(cs, Indices(s, change.o), 1, width)[c] == Users(s, next, c) <= MaxValue(width)
    ensures change.Remove? ==>
              var next := bag - multiset{change.o};
              SubtractedAll(cs, Indices(s, change.o), 1, width)[c] == Users(s, next, c) <= MaxValue(width)
  {
    hide Indices, Increasing, Users, AddedAll, SubtractedAll, HasCell, Added, Subtracted;
    var o, own := change.o, Indices(s, change.o);
    AddedAllAt(cs, own, 1, width, c);
    SubtractedAllAt(cs, own, 1, width, c);
    AddedOne(cs[c], width);
    assert c in own <==> HasCell(s, o, c);
    if change.Insert? {
      UsersWithout(s, bag + multiset{o}, c, o);
      assert bag + multiset{o} - multiset{o} == bag;
    } else {
      UsersWithout(s, bag, c, o);
      Pow2Grows(0, width);
      if c in own { SubtractExact(cs[c], 1, width); }
    }
  }

  /** While only objects that are there are removed and no counter sticks, every counter is the
      number of objects in the filter that have the cell, whatever was added and removed before. */
  lemma {:induction false} ChangesExact(s: Shape, width: nat, history: seq<Change>, c: nat)
    requires s.Valid() && width > 0 && c < s.cells && AllSound(s, width, history)
    ensures ChangeRun(s, width, history)[c] == Users(s, BagAfter(history), c) <= MaxValue(width)
  {
    hide AllSound, Sound, Users, Indices;
    if history == [] {
      NoUsers(s, c);
    } else {
      var front, change := history[..|history| - 1], history[|history| - 1];
      SoundFront(s, width, history);
      ChangesExact(s, width, front, c);
      ChangeCell(s, width, ChangeRun(s, width, front), BagAfter(front), change, c);
    }
  }

  lemma NoUsers(s: Shape, c: int)
    requires s.Valid()
    ensures Users(s, multiset{}, c) == 0
  {}

  /** A lookup then gives at least how often the object is in the filter. */
  lemma PresentFound(s: Shape, width: nat, history: seq<Change>, x: string)
    requires s.Valid() && width > 0 && AllSound(s, width, history)
    ensures MinAt(ChangeRun(s, width, history), Indices(s, x), MaxValue(width)) >= BagAfter(history)[x]
  {
    hide AllSound, Users, ChangeRun, BagAfter;
    var cs, own := ChangeRun(s, width, history), Indices(s, x);
    forall c | c in own ensures BagAfter(history)[x] <= cs[c] <= MaxValue(width) {
      ChangesExact(s, width, history, c);
      UsersAtLeast(s, BagAfter(history), c, x);
    }
    assert own[0] in own;
  }

  lemma MinIncreasedAt(s: Shape, width: nat, cs: seq<nat>, o: string, c: nat)
    requires s.Valid() && |cs| == s.cells && width > 0 && c < s.cells && cs[c] <= MaxValue(width)
    ensures var own := Indices(s, o);
            var m := MinAt(cs, own, MaxValue(width));
            MinIncreased(s, width, cs, o)[c] == if c in own && cs[c] == m then Min(m + 1, MaxValue(width)) else cs[c]
  {
    hide Increasing, Indices, Added, MinAt, CellsWith, MaxValue, HasCell;
    var own := Indices(s, o);
    CellsWithIncreasing(cs, own, MinAt(cs, own, MaxValue(width)));
    AddedAllAt(cs, Minima(cs, own, MaxValue(width)), 1, width, c);
    AddedOne(cs[c], width);
  }

  /** Cell by cell the minimum-increase filter counts no more than the plain one. */
  lemma {:induction false} MinIncreaseBelowCounting(s: Shape, width: nat, history: seq<string>, c: nat)
    requires s.Valid() && width > 0 && c < s.cells
    ensures MinIncreaseRun(s, width, history)[c] <= CountingRun(s, width, history)[c] <= MaxValue(width)
  {
    hide Increasing, Indices, Added, AddedAll, MinAt, MinIncreased, HasCell;
    if history != [] {
      var front, o := history[..|history| - 1], history[|history| - 1];
      MinIncreaseBelowCounting(s, width, front, c);
      MinIncreasedAt(s, width, MinIncreaseRun(s, width, front), o, c);
      AddedAllAt(CountingRun(s, width, front), Indices(s, o), 1, width, c);
      AddedOne(CountingRun(s, width, front)[c], width);
    }
  }

  /** Every cell of an object counts at least how often it was added, until it sticks. */
  lemma {:induction false} MinIncreaseAboveTrue(s: Shape, width: nat, history: seq<string>, x: string, c: nat)
    requires s.Valid() && width > 0 && HasCell(s, x, c) && c < s.cells
    ensures MinIncreaseRun(s, width, history)[c] >= Min(Times(history, x), MaxValue(width))
  {
    hide Increasing, Indices, MinAt, MinIncreased, HasCell, MaxValue;
    if history != [] {
      var front, o := history[..|history| - 1], history[|history| - 1];
      var cs, own := MinIncreaseRun(s, width, front), Indices(s, o);
      MinIncreaseAboveTrue(s, width, front, x, c);
      MinIncreaseBelowCounting(s, width, front, c);
      MinIncreasedAt(s, width, cs, o, c);
      if o == x {
        forall d | d in own ensures cs[d] >= Min(Times(front, x), MaxValue(width)) {
          MinIncreaseAboveTrue(s, width, front, x, d);
        }
      }
    }
  }

  /** Looking an object up in the minimum-increase filter gives at least how often it was added, and
      at most what the plain filter gives. */
  lemma Sandwich(s: Shape, width: nat, history: seq<string>, x: string)
    requires s.Valid() && width > 0
    ensures var mi := MinAt(MinIncreaseRun(s, width, history), Indices(s, x), MaxValue(width));
            && Min(multiset(history)[x], MaxValue(width)) <= mi
            && mi <= MinAt(CountingRun(s, width, history), Indices(s, x), MaxValue(width))
  {
    var mi, plain, own := MinIncreaseRun(s, width, history), CountingRun(s, width, history), Indices(s, x);
    forall c | c in own ensures Min(Times(history, x), MaxValue(width)) <= mi[c] <= plain[c] {
      MinIncreaseAboveTrue(s, width, history, x, c);
      MinIncreaseBelowCounting(s, width, history, c);
    }
    TimesExact(history, x);
    MinMonotone(mi, plain, own, MaxValue(width));
  }

  // ----- the filters

  class CountingBloomFilter {
    const shape: Shape
    const cells: CounterVector

    ghost predicate Valid()
      reads cells.bits
    {
      shape.Valid() && cells.Valid() && cells.cells == shape.cells
    }

    constructor (shape: Shape, width: nat)
      requires shape.Valid() && 0 < width <= 31
      ensures Valid() && fresh(cells) && fresh(cells.bits) && this.shape == shape && cells.width == width
      ensures cells.Contents() == Zeros(shape.cells)
    {
      this.shape := shape;
      cells := new CounterVector(shape.cells, width);
    }

    method FindIndices(o: string) returns (indices: seq<int>)
      requires Valid()
      ensures indices == Indices(shape, o)
      ensures forall c :: c in indices <==> LandsAt(shape, o, c)
    {
      var digests := shape.hash(o);
      indices := [];
      for i := 0 to |digests|
        invariant indices == Digested(shape, o, i)
      {
        indices := indices + [shape.Cell(i, digests[i])];
      }
      indices := Unique(Sort(IntKey, indices));
      forall c ensures c in indices <==> LandsAt(shape, o, c) { IndicesLand(shape, o, c); }
    }

    method FindMinimum(indices: seq<int>) returns (min: nat)
      requires Valid() && InCells(cells.Contents(), indices)
      ensures min == MinAt(cells.Contents(), indices, MaxValue(cells.width))
    {
      min := MaxValue(cells.width);
      for k := 0 to |indices|
        invariant min == MinAt(cells.Contents(), indices[..k], MaxValue(cells.width))
      {
        assert indices[..k + 1][..k] == indices[..k];
        var cnt := cells.Count(indices[k]);
        if cnt < min { min := cnt; }
      }
      assert indices[..|indices|] == indices;
    }

    /** One pass that starts the list of positions anew whenever a smaller count comes up. */
    method FindMinima(indices: seq<int>) returns (positions: seq<int>)
      requires Valid() && InCells(cells.Contents(), indices)
      ensures positions == Minima(cells.Contents(), indices, MaxValue(cells.width))
    {
      hide Min, MaxValue, Minima, MinAt, CounterVector.Contents, CounterVector.Valid;
      var min := MaxValue(cells.width);
      positions := [];
      ghost var cs := cells.Contents();
      NoMinima(cs, indices, min);
      for k := 0 to |indices|
        invariant InCells(cs, indices[..k]) && min == MinAt(cs, indices[..k], MaxValue(cells.width))
        invariant positions == Minima(cs, indices[..k], MaxValue(cells.width))
      {
        var i := indices[k];
        MinimaStep(cs, indices, k, MaxValue(cells.width));
        MinOf(min, cs[i]);
        var cnt := cells.Count(i);
        if cnt == min {
          positions := positions + [i];
        } else if cnt < min {
          min := cnt;
          positions := [i];
        }
      }
      assert indices[..|indices|] == indices;
    }

    /** Counts in each of the cells; false reports that a counter stuck. */
    method Increment(indices: seq<int>, value: nat) returns (status: bool)
      requires Valid() && InCells(cells.Contents(), indices) && 0 < value < Pow2(64)
      modifies cells.bits
      ensures Valid() && cells.Contents() == AddedAll(old(cells.Contents()), indices, value, cells.width)
      ensures status <==> NoneSticks(old(cells.Contents()), indices, value, cells.width)
    {
      hide CounterVector.Contents, CounterVector.Valid, Added, Subtracted, MaxValue;
      status := true;
      ghost var cs := cells.Contents();
      for k := 0 to |indices|
        invariant Valid() && cells.Contents() == AddedAll(cs, indices[..k], value, cells.width)
        invariant status <==> forall j :: 0 <= j < k ==> Room(cs, indices, j, value, cells.width)
      {
        assert indices[..k + 1][..k] == indices[..k];
        var ok := cells.Increment(indices[k], value);
        assert ok <==> Room(cs, indices, k, value, cells.width);
        if !ok { status := false; }
      }
      assert indices[..|indices|] == indices;
    }

    method Decrement(indices: seq<int>, value: nat) returns (status: bool)
      requires Valid() && InCells(cells.Contents(), indices) && 0 < value < Pow2(64)
      modifies cells.bits
      ensures Valid() && cells.Contents() == SubtractedAll(old(cells.Contents()), indices, value, cells.width)
      ensures status <==> NoneWraps(old(cells.Contents()), indices, value, cells.width)
    {
      hide CounterVector.Contents, CounterVector.Valid, Added, Subtracted, MaxValue;
      status := true;
      ghost var cs := cells.Contents();
      for k := 0 to |indices|
        invariant Valid() && cells.Contents() == SubtractedAll(cs, indices[..k], value, cells.width)
        invariant status <==> forall j :: 0 <= j < k ==> Enough(cs, indices, j, value, cells.width)
      {
        assert indices[..k + 1][..k] == indices[..k];
        var ok := cells.Decrement(indices[k], value);
        assert ok <==> Enough(cs, indices, k, value, cells.width);
        if !ok { status := false; }
      }
      assert indices[..|indices|] == indices;
    }

    method Add(o: string)
      requires Valid()
      modifies cells.bits
      ensures Valid() && cells.Contents() == AddedAll(old(cells.Contents()), Indices(shape, o), 1, cells.width)
    {
      var indices := FindIndices(o);
      var _ := Increment(indices, 1);
    }

    method Remove(o: string)
      requires Valid()
      modifies cells.bits
      ensures Valid() && cells.Contents() == SubtractedAll(old(cells.Contents()), Indices(shape, o), 1, cells.width)
    {
      var indices := FindIndices(o);
      var _ := Decrement(indices, 1);
    }

    method Lookup(o: string) returns (min: nat)
      requires Valid()
      ensures min == MinAt(cells.Contents(), Indices(shape, o), MaxValue(cells.width))
    {
      var indices := FindIndices(o);
      min := FindMinimum(indices);
    }
  }

  /** The minimum-increase filter is a counting filter with another way of adding. */
  class SpectralMiBloomFilter {
    const base: CountingBloomFilter

    ghost predicate Valid()
      reads base.cells.bits
    {
      base.Valid()
    }

    constructor (shape: Shape, width: nat)
      requires shape.Valid() && 0 < width <= 31
      ensures Valid() && fresh(base) && fresh(base.cells.bits)
      ensures base.shape == shape && base.cells.width == width
      ensures base.cells.Contents() == Zeros(shape.cells)
    {
      base := new CountingBloomFilter(shape, width);
    }

    method Add(o: string)
      requires Valid()
      modifies base.cells.bits
      ensures Valid()
      ensures base.cells.Contents() == MinIncreased(base.shape, base.cells.width, old(base.cells.Contents()), o)
    {
      var indices := base.FindIndices(o);
      var minima := base.FindMinima(indices);
      var _ := base.Increment(minima, 1);
    }

    method Lookup(o: string) returns (min: nat)
      requires Valid()
      ensures min == MinAt(base.cells.Contents(), Indices(base.shape, o), MaxValue(base.cells.width))
    {
      min := base.Lookup(o);
    }
  }

  /** Both filters over the same objects: the two answers enclose the true count. */
  method AddBoth(shape: Shape, width: nat, history: seq<string>, x: string) returns (minIncrease: nat, plain: nat)
    requires shape.Valid() && 0 < width <= 31
    ensures Min(multiset(history)[x], MaxValue(width)) <= minIncrease <= plain
  {
    hide Times, MinAt, Indices, AddedAll, MinIncreased, CounterVector.Contents;
    var counting := new CountingBloomFilter(shape, width);
    var spectral := new SpectralMiBloomFilter(shape, width);
    for i := 0 to |history|
      invariant counting.Valid() && spectral.Valid() && counting.cells.bits != spectral.base.cells.bits
      invariant counting.shape == spectral.base.shape == shape
      invariant counting.cells.width == spectral.base.cells.width == width
      invariant fresh(counting.cells.bits) && fresh(spectral.base.cells.bits)
      invariant counting.cells.Contents() == CountingRun(shape, width, history[..i])
      invariant spectral.base.cells.Contents() == MinIncreaseRun(shape, width, history[..i])
    {
      assert history[..i + 1][..i] == history[..i];
      counting.Add(history[i]);
      spectral.Add(history[i]);
    }
    assert history[..|history|] == history;
    Sandwich(shape, width, history, x);
    minIncrease := spectral.Lookup(x);
    plain := counting.Lookup(x);
  }
}
