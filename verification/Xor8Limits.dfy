/** What the table can store: for which numbers of keys and for which ciphertexts it works. */
module Xor8Limits {
  import opened Arith
  import opened Peeling
  import opened Sequences
  import opened SlotLayouts
  import opened Tool
  import opened Xor8Index

  function BlockLength(n: nat): nat { ArrayLength(n) / HASHES }

  // ----- how many keys

  /** The numbers of keys for which the array is too short. */
  const STUCK_SIZES: set<nat> := {2, 3, 5, 8}

  /** An attempt with these slots, in an array of the right length, gives a table. */
  ghost predicate Possible(slot: SlotMap, n: nat) {
    InBlocks(slot, n, BlockLength(n)) && Peelable(slot, n) && !Overfull(slot, n)
  }

  /** The array has two slots more than keys, except for the stuck sizes. */
  lemma RoomForSize(n: nat)
    requires n > 0
    ensures n + 2 <= 3 * BlockLength(n) <==> n !in STUCK_SIZES
  {
    if n < 9 {
      assert n == 1 || n == 2 || n == 3 || n == 4 || n == 5 || n == 6 || n == 7 || n == 8;
    }
  }

  /** For a stuck size no seed gives a table, and none even overfills a slot: the loop never ends. */
  lemma SizesStuck(word: HashWord, keys: seq<int>, seed: int)
    requires |keys| in STUCK_SIZES
    ensures Stuck(Slots(word, keys, seed, BlockLength(|keys|)), |keys|)
  {
    hide Peelable, Overfull, Slots;
    var n := |keys|;
    var slot := Slots(word, keys, seed, BlockLength(n));
    BlockLengthPositive(n);
    SlotsInBlocks(word, keys, seed, BlockLength(n));
    RoomForSize(n);
    FewNeverOverfull(slot, n);
    if Peelable(slot, n) { PeelNeedsRoom(slot, n, BlockLength(n)); }
  }

  lemma LayoutPossible(slot: SlotMap, n: nat, ts: seq<nat>)
    requires LaidOut(slot, n, BlockLength(n), ts) && n !in STUCK_SIZES
    ensures Possible(slot, n)
  {
    hide LaidOut, Peelable, Overfull;
    if n > 0 {
      RoomForSize(n);
      LaidOutFits(slot, n, BlockLength(n), ts);
    }
    LaidOutPeels(slot, n, BlockLength(n), ts);
    LaidOutNotOverfull(slot, n, BlockLength(n), ts);
  }

  function Layout(n: nat, ts: seq<nat>): SlotMap {
    (k: nat, b: nat) => if b < HASHES then Start(b, BlockLength(n)) + Offset(Role(ts, k), b) else 0
  }

  /** Some slots give a table for n keys if and only if n is none of the stuck sizes. */
  lemma PossibleSizes(n: nat)
    ensures (exists slot: SlotMap :: Possible(slot, n)) <==> n !in STUCK_SIZES
  {
    if n in STUCK_SIZES {
      hide Peelable, Overfull;
      RoomForSize(n);
      forall slot: SlotMap ensures !Possible(slot, n) {
        if Possible(slot, n) { PeelNeedsRoom(slot, n, BlockLength(n)); }
      }
    } else {
      LayoutPossible(Layout(n, []), n, []);
    }
  }

  // ----- hashes that give the slots

  /** A hash word that is reduced to a given number below n. */
  function WordAt(o: nat, n: nat): nat
    requires n > 0
  {
    QuotientNat(o * 0x1_0000_0000 + n - 1, n);
    (o * 0x1_0000_0000 + n - 1) / n
  }

  lemma WordReaches(o: nat, n: nat)
    requires o < n <= 0x1_0000_0000
    ensures Reduce(WordAt(o, n), n) == o
  {
    var m, w := 0x1_0000_0000, WordAt(o, n);
    var a := o * m + n - 1;
    assert a == w * n + a % n;
    assert o * m <= w * n < o * m + n;
    MulLe(o + 1, n, m);
    assert (o + 1) * m == o * m + m;
    assert w * n < n * m;
    if w >= m { MulLe(m, w, n); }
    assert w % m == w;
    DivModUnique(w * n, m, o, w * n - o * m);
  }

  function LayoutWord(n: nat, ts: seq<nat>): HashWord {
    (key: int, seed: int, b: nat) =>
      if key >= 0 && BlockLength(n) > 0 then WordAt(Offset(Role(ts, key), b), BlockLength(n)) else 0
  }

  function FirstKeys(n: nat): seq<int> { seq(n, k => k) }

  /** Any layout comes about: some hash gives these slots under every seed. */
  lemma HashLaysOut(n: nat, ts: seq<nat>, seed: int)
    requires Targets(ts, n) && n !in STUCK_SIZES && BlockLength(n) <= 0x1_0000_0000
    ensures LaidOut(Slots(LayoutWord(n, ts), FirstKeys(n), seed, BlockLength(n)), n, BlockLength(n), ts)
  {
    hide Offset, Role, Reduce, WordAt;
    var length, slot := BlockLength(n), Slots(LayoutWord(n, ts), FirstKeys(n), seed, BlockLength(n));
    forall k: nat, b: nat | k < n && b < HASHES ensures slot(k, b) == Start(b, length) + Offset(Role(ts, k), b) {
      RoomForSize(n);
      RolesDiffer(ts, n, k, k);
      OffsetFits(Role(ts, k), b, n, length);
      WordReaches(Offset(Role(ts, k), b), length);
    }
  }

  /** Some hash and different keys give a table under every seed if and only if n is none of the stuck
      sizes. */
  lemma BuildableSizes(n: nat)
    requires BlockLength(n) <= 0x1_0000_0000
    ensures (exists word, keys :: |keys| == n && Distinct(keys) && Builds(word, keys)) <==> n !in STUCK_SIZES
  {
    hide Peelable, Overfull, InBlocks;
    if n in STUCK_SIZES {
      forall word, keys: seq<int> | |keys| == n ensures !Builds(word, keys) {
        SizesStuck(word, keys, 0);
        assert !Possible(Slots(word, keys, 0, BlockLength(n)), n);
      }
    } else {
      var word, keys := LayoutWord(n, []), FirstKeys(n);
      forall seed ensures Possible(Slots(word, keys, seed, BlockLength(|keys|)), |keys|) {
        HashLaysOut(n, [], seed);
        LayoutPossible(Slots(word, keys, seed, BlockLength(n)), n, []);
      }
      assert Builds(word, keys);
    }
  }

  /** Every seed gives a table. */
  ghost predicate Builds(word: HashWord, keys: seq<int>) {
    forall seed :: Possible(Slots(word, keys, seed, BlockLength(|keys|)), |keys|)
  }

  // ----- another seed helps

  /** A hash that depends on the seed: under seed b it gives a layout, under any other key 1 gets the
      slots of key 0. */
  function SeededWord(n: nat, b: int): HashWord {
    (key: int, seed: int, i: nat) => LayoutWord(n, [])(if seed != b && key == 1 then 0 else key, seed, i)
  }

  /** The owners of a slot under the clashing seed: those of the layout, and key 1. */
  lemma ClashingStuck(slot: SlotMap, laid: SlotMap, n: nat)
    requires n > 1 && LaidOut(laid, n, BlockLength(n), [])
    requires forall k: nat, i: nat :: k < n && i < HASHES ==> slot(k, i) == laid(if k == 1 then 0 else k, i)
    ensures Stuck(slot, n)
  {
    hide LaidOut;
    var core: set<nat> := {0, 1};
    forall k: nat, i: nat | k in core && i < HASHES ensures Shared(slot, core, k, i) {
      assert slot(0, i) == slot(1, i);
    }
    assert IsCore(slot, core) && core <= All(n) && 0 in core;
    forall i: nat, s: nat | i < HASHES ensures |Users(slot, All(n), i, s)| <= MAX_COUNT {
      FewOwners(laid, n, BlockLength(n), [], i, s);
      SubsetSize(Users(slot, All(n), i, s), Users(laid, All(n), i, s) + {1});
    }
  }

  /** For every size that is not stuck there are a hash and different keys with which one seed is given up
      and another one succeeds: the construction goes on to the second. */
  lemma RetryBuilds(n: nat, a: int, b: int) returns (word: HashWord, keys: seq<int>)
    requires n > 1 && n !in STUCK_SIZES && a != b && BlockLength(n) <= 0x1_0000_0000
    ensures |keys| == n && Distinct(keys)
    ensures Stuck(Slots(word, keys, a, BlockLength(n)), n) && Possible(Slots(word, keys, b, BlockLength(n)), n)
    ensures forall outcome, seed :: Decided(word, keys, BlockLength(n), [a, b], outcome, seed) ==>
              outcome == Built && seed == b
  {
    hide Peelable, Overfull, LaidOut, InBlocks, Reduce;
    word, keys := SeededWord(n, b), FirstKeys(n);
    var laid := Slots(LayoutWord(n, []), keys, b, BlockLength(n));
    HashLaysOut(n, [], b);
    ClashingStuck(Slots(word, keys, a, BlockLength(n)), laid, n);
    SameSlots(n, b);
    LayoutPossible(Slots(word, keys, b, BlockLength(n)), n, []);
    forall outcome, seed | Decided(word, keys, BlockLength(n), [a, b], outcome, seed)
      ensures outcome == Built && seed == b
    {
      SecondDecides(word, keys, a, b, outcome, seed);
    }
  }

  lemma SecondDecides(word: HashWord, keys: seq<int>, a: int, b: int, outcome: Outcome, seed: int)
    requires var n := |keys|;
             Stuck(Slots(word, keys, a, BlockLength(n)), n) && Possible(Slots(word, keys, b, BlockLength(n)), n)
    requires Decided(word, keys, BlockLength(|keys|), [a, b], outcome, seed)
    ensures outcome == Built && seed == b
  {
    hide Peelable, Overfull, InBlocks, Slots;
    assert [a, b][0] == a && [a, b][1] == b;
  }

  lemma SameSlots(n: nat, b: int)
    requires n > 1 && n !in STUCK_SIZES && BlockLength(n) <= 0x1_0000_0000
    ensures LaidOut(Slots(SeededWord(n, b), FirstKeys(n), b, BlockLength(n)), n, BlockLength(n), [])
  {
    hide Offset, Role, Reduce, WordAt;
    HashLaysOut(n, [], b);
    var slot, laid := Slots(SeededWord(n, b), FirstKeys(n), b, BlockLength(n)),
        Slots(LayoutWord(n, []), FirstKeys(n), b, BlockLength(n));
    forall k: nat, i: nat | k < n && i < HASHES ensures slot(k, i) == laid(k, i) {}
  }

  /** A key that is given twice shares all its slots with itself: no seed ever peels it. */
  lemma RepeatedKeyNeverPeels(word: HashWord, keys: seq<int>, seed: int, blockLength: nat, i: nat, j: nat)
    requires i < j < |keys| && keys[i] == keys[j]
    ensures !Peelable(Slots(word, keys, seed, blockLength), |keys|)
  {
    var slot, core := Slots(word, keys, seed, blockLength), {i, j};
    forall k, b: nat | k in core && b < HASHES ensures Shared(slot, core, k, b) {
      assert slot(i, b) == slot(j, b);
    }
    assert core <= All(|keys|) && IsCore(slot, core) && i in core;
  }

  /** No seed builds a table for a key list with a repeat; for a stuck size the seeds run out. */
  lemma NeverBuilt(word: HashWord, keys: seq<int>, seeds: seq<int>, outcome: Outcome, seed: int, i: nat, j: nat)
    requires Decided(word, keys, BlockLength(|keys|), seeds, outcome, seed)
    ensures i < j < |keys| && keys[i] == keys[j] ==> outcome != Built
    ensures |keys| in STUCK_SIZES ==> outcome == SeedsExhausted
  {
    hide Peelable, Overfull;
    if i < j < |keys| && keys[i] == keys[j] { RepeatedKeyNeverPeels(word, keys, seed, BlockLength(|keys|), i, j); }
    if |keys| in STUCK_SIZES { SizesStuck(word, keys, seed); }
  }

  // ----- which ciphertexts

  /** What decides a table of the right length, once the slots let it be built: the order of the complete
      peel, the block each key is peeled from, and the filler. */
  datatype Run = Run(slot: SlotMap, order: seq<nat>, heads: seq<nat>, filler: nat -> Digest) {

    ghost predicate Valid(n: nat) {
      InBlocks(slot, n, BlockLength(n)) && !Overfull(slot, n) && Progress(slot, n, order, heads, {})
    }

    ghost function Table(ct: seq<Bytes>): (cells: seq<Bytes>)
      requires Valid(|ct|)
      ensures SlotsFit(slot, |ct|, cells) && |cells| == ArrayLength(|ct|)
    {
      SlotsBelow(slot, |ct|);
      TableOf(slot, |ct|, order, heads, ct, filler, ArrayLength(|ct|))
    }

    /** Every key reads back its ciphertext. */
    ghost predicate Exact(ct: seq<Bytes>)
      requires Valid(|ct|)
    {
      forall k: nat :: k < |ct| ==> Lookup(Table(ct), slot, k) == ct[k]
    }
  }

  lemma SlotsBelow(slot: SlotMap, n: nat)
    requires InBlocks(slot, n, BlockLength(n))
    ensures forall k: nat, b: nat {:trigger slot(k, b)} :: k < n && b < HASHES ==> slot(k, b) < ArrayLength(n)
  {
    forall k: nat, b: nat | k < n && b < HASHES ensures slot(k, b) < ArrayLength(n) {
      assert InBlock(slot(k, b), b, BlockLength(n));
    }
  }

  /** Slots that give a table have a run, with any filler. */
  lemma RunOf(slot: SlotMap, n: nat, filler: nat -> Digest) returns (r: Run)
    requires Possible(slot, n)
    ensures r.Valid(n) && r.slot == slot
  {
    hide Peelable, Overfull, InBlocks;
    var order, heads := CompletePeel(slot, n);
    r := Run(slot, order, heads, filler);
  }

  /** All ciphertexts have one length, between one byte and that of a random cell. */
  predicate Storable(ct: seq<Bytes>) {
    forall k :: 0 <= k < |ct| ==> 1 <= |ct[k]| <= DIGEST_LENGTH && |ct[k]| == |ct[0]|
  }

  lemma RunAnswers(ct: seq<Bytes>, r: Run)
    requires r.Valid(|ct|)
    ensures Answers(r.Table(ct), r.slot, |ct|, ct, Shortest(ct))
  {
    SlotsBelow(r.slot, |ct|);
    TableAnswers(r.slot, |ct|, BlockLength(|ct|), r.order, r.heads, ct, r.filler, ArrayLength(|ct|));
  }

  lemma StorableIsExact(ct: seq<Bytes>, r: Run)
    requires r.Valid(|ct|) && Storable(ct)
    ensures r.Exact(ct)
  {
    RunAnswers(ct, r);
    if ct != [] { ExactLengths(r.Table(ct), r.slot, |ct|, ct, |ct[0]|); }
  }

  /** A key that shares the slot from which another one was peeled reads no more than that one's
      ciphertext is long. */
  lemma SharerIsCut(ct: seq<Bytes>, r: Run, i: nat, b: nat)
    requires r.Valid(|ct|) && i < |ct| == |r.order| && b < |ct| && ct[r.order[i]] != []
    requires r.slot(b, r.heads[i]) == r.slot(r.order[i], r.heads[i]) && |ct[r.order[i]]| < |ct[b]|
    ensures !r.Exact(ct)
  {
    hide Lookup;
    SlotsBelow(r.slot, |ct|);
    SharedCellCuts(r.slot, |ct|, BlockLength(|ct|), r.order, r.heads, ct, r.filler, ArrayLength(|ct|), i, b);
    assert |Lookup(r.Table(ct), r.slot, b)| < |ct[b]|;
  }

  lemma PeeledAt(ct: seq<Bytes>, r: Run, k: nat) returns (i: nat)
    requires r.Valid(|ct|) && k < |ct|
    ensures i < |ct| == |r.order| == |r.heads| && r.order[i] == k && r.heads[i] < HASHES
  {
    assert k !in {} && k in r.order;
    i :| 0 <= i < |r.order| && r.order[i] == k;
  }

  /** With these slots no order of peeling and no filler lets every key read back its ciphertext. */
  ghost predicate AlwaysCuts(slot: SlotMap, ct: seq<Bytes>) {
    forall r: Run :: r.Valid(|ct|) && r.slot == slot ==> !r.Exact(ct)
  }

  /** Role 0 shares each of its slots with role 1 or role 2: if these are longer, one of them is cut. */
  lemma ShortBaseCuts(ct: seq<Bytes>, slot: SlotMap, ts: seq<nat>, r: Run)
    requires LaidOut(slot, |ct|, BlockLength(|ct|), ts) && |ts| >= 3 && Distinct(ts)
    requires r.Valid(|ct|) && r.slot == slot
    requires 0 < |ct[ts[0]]| < |ct[ts[1]]| && |ct[ts[0]]| < |ct[ts[2]]|
    ensures !r.Exact(ct)
  {
    hide Role, Run.Valid, Run.Exact;
    RoleOfTarget(ts, |ct|, 0);
    RoleOfTarget(ts, |ct|, 1);
    RoleOfTarget(ts, |ct|, 2);
    var i := PeeledAt(ct, r, ts[0]);
    SharerIsCut(ct, r, i, if r.heads[i] == 0 then ts[2] else ts[1]);
  }

  /** Role 3 shares a slot with role 1 and one with role 2. In every order, role 1 or role 2 is peeled
      from such a slot: role 3 is cut if both are shorter. */
  lemma LongTopCuts(ct: seq<Bytes>, slot: SlotMap, ts: seq<nat>, r: Run)
    requires LaidOut(slot, |ct|, BlockLength(|ct|), ts) && |ts| >= 4 && Distinct(ts)
    requires r.Valid(|ct|) && r.slot == slot
    requires 0 < |ct[ts[1]]| < |ct[ts[3]]| && 0 < |ct[ts[2]]| < |ct[ts[3]]|
    ensures !r.Exact(ct)
  {
    hide Role, Offset, PeelOrder, Run.Exact, InBlocks, Overfull, IsCore, All;
    var n := |ct|;
    FirstRolesShare(slot, n, BlockLength(n), ts);
    var i0 := PeeledAt(ct, r, ts[0]);
    var i1 := PeeledAt(ct, r, ts[1]);
    var i2 := PeeledAt(ct, r, ts[2]);
    OneOffTheBase(slot, n, r.order, r.heads, i0, i1, i2);
    if r.heads[i1] == 0 {
      SharerIsCut(ct, r, i1, ts[3]);
    } else {
      SharerIsCut(ct, r, i2, ts[3]);
    }
  }

  /** An empty ciphertext, or some of one length above 32 bytes: not even one run is exact. */
  lemma NoRunExact(ct: seq<Bytes>, r: Run, k: nat)
    requires r.Valid(|ct|) && k < |ct|
    requires ct[k] == [] || (|ct[0]| > DIGEST_LENGTH && forall j :: 0 <= j < |ct| ==> |ct[j]| == |ct[0]|)
    ensures !r.Exact(ct)
  {
    hide Lookup;
    RunAnswers(ct, r);
    if ct[k] == [] {
      ExactKeys(r.Table(ct), r.slot, |ct|, ct, k);
      assert Lookup(r.Table(ct), r.slot, k) != ct[k];
    } else {
      ExactLengths(r.Table(ct), r.slot, |ct|, ct, |ct[0]|);
    }
  }

  lemma ShortestKey(ct: seq<Bytes>, n: nat) returns (p: nat)
    requires 0 < n <= |ct|
    ensures p < n && forall k :: 0 <= k < n ==> |ct[p]| <= |ct[k]|
  {
    if n == 1 {
      p := 0;
    } else {
      p := ShortestKey(ct, n - 1);
      if |ct[n - 1]| < |ct[p]| { p := n - 1; }
    }
  }

  /** A key number below 4 other than three given ones. */
  function Another(i: nat, j: nat, k: nat): (other: nat)
    ensures other < 4 && other != i && other != j && other != k
  {
    if 0 !in {i, j, k} then 0 else if 1 !in {i, j, k} then 1 else if 2 !in {i, j, k} then 2 else 3
  }

  /** Whom to give the first roles so that some key is cut: the shortest key is the base of two longer
      ones or, where only one is longer, that one is above two shorter ones. */
  lemma CuttingTargets(ct: seq<Bytes>) returns (ts: seq<nat>)
    requires !Storable(ct) && |ct| !in STUCK_SIZES
    ensures Targets(ts, |ct|) && Distinct(ts)
    ensures CutBy(ct, ts)
  {
    var p := ShortestKey(ct, |ct|);
    ts := [];
    if ct[p] != [] && exists b :: 0 <= b < |ct| && |ct[b]| > |ct[p]| {
      var b :| 0 <= b < |ct| && |ct[b]| > |ct[p]|;
      if c :| 0 <= c < |ct| && |ct[c]| > |ct[p]| && c != b {
        ts := [p, b, c];
      } else {
        var q := Another(p, b, b);
        ts := [Another(p, q, b), p, q, b];
      }
    }
  }

  /** Why a layout for ts lets no run be exact. */
  ghost predicate CutBy(ct: seq<Bytes>, ts: seq<nat>)
    requires Targets(ts, |ct|)
  {
    || (exists k :: 0 <= k < |ct| && ct[k] == [])
    || (|ct| > 0 && |ct[0]| > DIGEST_LENGTH && forall j :: 0 <= j < |ct| ==> |ct[j]| == |ct[0]|)
    || (|ts| >= 3 && 0 < |ct[ts[0]]| < |ct[ts[1]]| && |ct[ts[0]]| < |ct[ts[2]]|)
    || (|ts| >= 4 && 0 < |ct[ts[1]]| < |ct[ts[3]]| && 0 < |ct[ts[2]]| < |ct[ts[3]]|)
  }

  lemma CutInRun(ct: seq<Bytes>, slot: SlotMap, ts: seq<nat>, r: Run)
    requires LaidOut(slot, |ct|, BlockLength(|ct|), ts) && Distinct(ts) && CutBy(ct, ts)
    requires r.Valid(|ct|) && r.slot == slot
    ensures !r.Exact(ct)
  {
    hide Run.Exact, Run.Valid;
    if |ts| >= 4 && 0 < |ct[ts[1]]| < |ct[ts[3]]| && 0 < |ct[ts[2]]| < |ct[ts[3]]| {
      LongTopCuts(ct, slot, ts, r);
    } else if |ts| >= 3 && 0 < |ct[ts[0]]| < |ct[ts[1]]| && |ct[ts[0]]| < |ct[ts[2]]| {
      ShortBaseCuts(ct, slot, ts, r);
    } else if k :| 0 <= k < |ct| && ct[k] == [] {
      NoRunExact(ct, r, k);
    } else {
      NoRunExact(ct, r, 0);
    }
  }

  /** Some layout cuts ciphertexts that are not storable, in every order of peeling. */
  lemma CuttingLayout(ct: seq<Bytes>) returns (ts: seq<nat>)
    requires !Storable(ct) && |ct| !in STUCK_SIZES
    ensures Targets(ts, |ct|)
    ensures forall slot :: LaidOut(slot, |ct|, BlockLength(|ct|), ts) ==> Possible(slot, |ct|) && AlwaysCuts(slot, ct)
  {
    hide Storable, LaidOut, Possible, CutBy, Run.Exact, Run.Valid;
    ts := CuttingTargets(ct);
    forall slot | LaidOut(slot, |ct|, BlockLength(|ct|), ts) ensures Possible(slot, |ct|) && AlwaysCuts(slot, ct) {
      LayoutPossible(slot, |ct|, ts);
      forall r: Run | r.Valid(|ct|) && r.slot == slot ensures !r.Exact(ct) { CutInRun(ct, slot, ts, r); }
    }
  }

  lemma NoRunForStuckSize(r: Run, n: nat)
    requires r.Valid(n)
    ensures n !in STUCK_SIZES
  {
    hide InBlocks, Overfull;
    if n > 0 {
      assert Peelable(r.slot, n);
      PeelNeedsRoom(r.slot, n, BlockLength(n));
      RoomForSize(n);
    }
  }

  /** Whatever the slots, the order of peeling and the filler, in every table the code can build: all keys
      read back their ciphertexts, if and only if these have one length between 1 and 32 bytes, or their
      number is a stuck size and there is no table. */
  lemma ExactIffStorable(ct: seq<Bytes>)
    ensures (forall r: Run :: r.Valid(|ct|) ==> r.Exact(ct)) <==> Storable(ct) || |ct| in STUCK_SIZES
  {
    hide Storable, Run.Valid, Run.Exact;
    if Storable(ct) || |ct| in STUCK_SIZES {
      forall r: Run | r.Valid(|ct|) ensures r.Exact(ct) {
        NoRunForStuckSize(r, |ct|);
        StorableIsExact(ct, r);
      }
    } else {
      var ts := CuttingLayout(ct);
      var slot := Layout(|ct|, ts);
      assert LaidOut(slot, |ct|, BlockLength(|ct|), ts);
      var r := RunOf(slot, |ct|, _ => seq(DIGEST_LENGTH, _ => 0));
      assert !r.Exact(ct);
    }
  }

  /** Ciphertexts that are not storable: with some hash and different keys the construction succeeds under
      every seed, and some key never reads back its own. */
  lemma UnstorableIsCut(ct: seq<Bytes>) returns (word: HashWord, keys: seq<int>)
    requires !Storable(ct) && |ct| !in STUCK_SIZES && BlockLength(|ct|) <= 0x1_0000_0000
    ensures |keys| == |ct| && Distinct(keys) && Builds(word, keys)
    ensures forall seed :: AlwaysCuts(Slots(word, keys, seed, BlockLength(|ct|)), ct)
  {
    hide Storable, AlwaysCuts, Possible, LaidOut, Targets;
    var ts := CuttingLayout(ct);
    word, keys := LayoutWord(|ct|, ts), FirstKeys(|ct|);
    forall seed
      ensures Possible(Slots(word, keys, seed, BlockLength(|ct|)), |ct|)
      ensures AlwaysCuts(Slots(word, keys, seed, BlockLength(|ct|)), ct)
    {
      HashLaysOut(|ct|, ts, seed);
    }
  }

  // ----- storing and reading back

  /** What a search for key k may give. */
  ghost predicate ReadsAs(ct: seq<Bytes>, k: nat, r: Bytes)
    requires k < |ct|
  {
    (Storable(ct) ==> r == ct[k]) && (ct[k] != [] ==> r <= ct[k])
  }

  /** What the search for key k computes. */
  ghost predicate ReadAt(cells: seq<Bytes>, slot: SlotMap, k: nat, r: Bytes) {
    slot(k, 0) < |cells| && slot(k, 1) < |cells| && slot(k, 2) < |cells| && r == Lookup(cells, slot, k)
  }

  lemma KeyRead(word: HashWord, keys: seq<int>, ct: seq<Bytes>, blockLength: nat, seed: int, cells: seq<Bytes>, k: nat,
                r: Bytes)
    requires k < |keys| == |ct| && Complete(word, keys, ct, blockLength, seed, cells)
    requires ReadAt(cells, Slots(word, keys, seed, blockLength), k, r)
    ensures ReadsAs(ct, k, r)
  {
    var slot := Slots(word, keys, seed, blockLength);
    if Storable(ct) { ExactLengths(cells, slot, |keys|, ct, |ct[0]|); }
  }

  /** A finished table comes from a run. */
  lemma CompleteRun(word: HashWord, keys: seq<int>, ct: seq<Bytes>, seed: int, cells: seq<Bytes>) returns (r: Run)
    requires Complete(word, keys, ct, BlockLength(|ct|), seed, cells) && |cells| == ArrayLength(|ct|)
    requires !Overfull(Slots(word, keys, seed, BlockLength(|ct|)), |ct|)
    ensures r.slot == Slots(word, keys, seed, BlockLength(|ct|)) && r.Valid(|ct|) && r.Table(ct) == cells
  {
    hide Lookup, Answers, Overfull, InBlocks, Shortest, Progress, TableOf, Slots, SlotsFit;
    var slot, n := Slots(word, keys, seed, BlockLength(|ct|)), |ct|;
    BlockLengthPositive(n);
    if n > 0 { SlotsInBlocks(word, keys, seed, BlockLength(n)); } else { NoKeysInBlocks(slot); }
    SlotsBelow(slot, n);
    var order, heads, filler: nat -> Digest :|
      Progress(slot, n, order, heads, {}) && cells == TableOf(slot, n, order, heads, ct, filler, |cells|);
    r := Run(slot, order, heads, filler);
  }

  lemma NoKeysInBlocks(slot: SlotMap)
    ensures InBlocks(slot, 0, BlockLength(0))
  {}

  /** A table whose slots always cut a key does not read back as ct. */
  lemma CutRead(word: HashWord, keys: seq<int>, ct: seq<Bytes>, seed: int, cells: seq<Bytes>, read: seq<Bytes>)
    requires |read| == |ct| && |cells| == ArrayLength(|ct|)
    requires Complete(word, keys, ct, BlockLength(|ct|), seed, cells)
    requires var slot := Slots(word, keys, seed, BlockLength(|ct|));
             && !Overfull(slot, |ct|) && AlwaysCuts(slot, ct)
             && forall k :: 0 <= k < |ct| ==> ReadAt(cells, slot, k, read[k])
    ensures read != ct
  {
    hide Lookup, Complete, Overfull, Run.Valid, Slots;
    var r := CompleteRun(word, keys, ct, seed, cells);
    var k: nat :| k < |ct| && Lookup(r.Table(ct), r.slot, k) != ct[k];
    assert ReadAt(cells, r.slot, k, read[k]);
  }

  lemma AllRead(ct: seq<Bytes>, read: seq<Bytes>)
    requires |read| == |ct| && forall k :: 0 <= k < |ct| ==> ReadsAs(ct, k, read[k])
    ensures Storable(ct) ==> read == ct
    ensures forall k :: 0 <= k < |ct| && ct[k] != [] ==> read[k] <= ct[k]
  {
    hide Storable;
    assert forall k :: 0 <= k < |ct| ==> ReadsAs(ct, k, read[k]);
  }

  method ReadKey(table: Xor8, keys: seq<int>, ct: seq<Bytes>, k: nat) returns (r: Bytes)
    requires table.Valid() && k < |keys| == |ct|
    requires Complete(table.word, keys, ct, table.blockLength, table.seed, table.ciphertext[..])
    ensures ReadsAs(ct, k, r)
    ensures ReadAt(table.ciphertext[..], Slots(table.word, keys, table.seed, table.blockLength), k, r)
  {
    hide Complete, ReadsAs;
    r := table.Search(keys[k]);
    assert keys[k] == keys[k];
    KeyRead(table.word, keys, ct, table.blockLength, table.seed, table.ciphertext[..], k, r);
  }

  /** How the construction ends, seen from the caller. */
  lemma OutcomeOf(word: HashWord, keys: seq<int>, seeds: seq<int>, outcome: Outcome, seed: int)
    requires Decided(word, keys, BlockLength(|keys|), seeds, outcome, seed)
    ensures outcome in {Built, HashCollision, SeedsExhausted}
    ensures outcome == Built ==> !Overfull(Slots(word, keys, seed, BlockLength(|keys|)), |keys|)
    ensures seeds != [] && Builds(word, keys) ==> outcome == Built
  {
    hide Overfull, Peelable, InBlocks;
    if seeds != [] && Builds(word, keys) {
      assert Possible(Slots(word, keys, seeds[0], BlockLength(|keys|)), |keys|);
      assert Possible(Slots(word, keys, seed, BlockLength(|keys|)), |keys|);
    }
  }

  /** Storing some ciphertexts under their keys and reading all of them back. */
  method StoreAndRead(word: HashWord, keys: seq<int>, ct: seq<Bytes>, seeds: seq<int>, filler: nat -> Digest)
    returns (outcome: Outcome, read: seq<Bytes>, seed: int)
    requires |keys| == |ct|
    ensures outcome in {Built, HashCollision, SeedsExhausted}
    ensures Decided(word, keys, BlockLength(|keys|), seeds, outcome, seed)
    ensures seeds != [] && Builds(word, keys) ==> outcome == Built
    ensures outcome == Built && Storable(ct) ==> read == ct
    ensures outcome == Built && AlwaysCuts(Slots(word, keys, seed, BlockLength(|ct|)), ct) ==> read != ct
    ensures outcome == Built ==> |read| == |ct| && forall k :: 0 <= k < |ct| && ct[k] != [] ==> read[k] <= ct[k]
  {
    hide Complete, Decided, ReadsAs, ReadAt, Builds, AlwaysCuts, Overfull, Slots;
    var table := new Xor8(word, keys, ct, seeds, filler);
    OutcomeOf(word, keys, seeds, table.outcome, table.seed);
    outcome, read, seed := table.outcome, [], table.seed;
    if outcome == Built {
      assert ct[..table.size] == ct;
      ghost var slot := Slots(word, keys, seed, table.blockLength);
      for k := 0 to |keys|
        invariant table.Valid() && seed == table.seed
        invariant Complete(word, keys, ct, table.blockLength, seed, table.ciphertext[..])
        invariant |read| == k && forall j :: 0 <= j < k ==> ReadsAs(ct, j, read[j])
        invariant forall j :: 0 <= j < k ==> ReadAt(table.ciphertext[..], slot, j, read[j])
      {
        var r := ReadKey(table, keys, ct, k);
        read := read + [r];
      }
      AllRead(ct, read);
      if AlwaysCuts(slot, ct) { CutRead(word, keys, ct, seed, table.ciphertext[..], read); }
    }
  }
}
