/** The peeling phase of the three-block XOR table: every key owns one slot in
    each block; a slot left with a single key lets that key be removed, and its
    other two slots are counted down. */
module Peeling {
  import opened Tool

  const HASHES: nat := 3
  const MAX_COUNT := 120

  /** slot(k, b) is the slot of key number k in block b. */
  type SlotMap = (nat, nat) -> nat

  function Start(b: nat, blockLength: nat): nat
    requires b < HASHES
  {
    if b == 0 then 0 else if b == 1 then blockLength else 2 * blockLength
  }

  predicate InBlock(s: nat, b: nat, blockLength: nat)
    requires b < HASHES
  {
    Start(b, blockLength) <= s < Start(b, blockLength) + blockLength
  }

  ghost predicate InBlocks(slot: SlotMap, n: nat, blockLength: nat) {
    forall k: nat, b: nat {:trigger slot(k, b)} :: k < n && b < HASHES ==> InBlock(slot(k, b), b, blockLength)
  }

  /** The key numbers 0, 1, ..., n - 1. */
  ghost function All(n: nat): (keys: set<nat>)
    ensures forall k: nat :: k in keys <==> k < n
    ensures |keys| == n
  {
    if n == 0 then {} else All(n - 1) + {n - 1}
  }

  /** The keys of rem that own slot s in block b. */
  ghost function Users(slot: SlotMap, rem: set<nat>, b: nat, s: nat): set<nat> {
    set k | k in rem && slot(k, b) == s
  }

  /** Exclusive-or of the members of keys below n. */
  ghost function XorAll(keys: set<nat>, n: nat): nat {
    if n == 0 then 0
    else if n - 1 in keys then NatXor(XorAll(keys, n - 1), n - 1)
    else XorAll(keys, n - 1)
  }

  /** Some slot is owned by more keys than the counter allows. */
  ghost predicate Overfull(slot: SlotMap, n: nat) {
    exists b: nat, s: nat :: b < HASHES && |Users(slot, All(n), b, s)| > MAX_COUNT
  }

  /** A core: a set of keys in which no key is alone in any of its slots. */
  ghost predicate IsCore(slot: SlotMap, keys: set<nat>) {
    forall k, b: nat {:trigger slot(k, b)} :: k in keys && b < HASHES ==> Shared(slot, keys, k, b)
  }

  ghost predicate Shared(slot: SlotMap, keys: set<nat>, k: nat, b: nat) {
    exists other :: other in keys && other != k && slot(other, b) == slot(k, b)
  }

  /** An attempt with this slot map succeeds: the only core is the empty one. */
  ghost predicate Peelable(slot: SlotMap, n: nat) {
    forall core: set<nat> | core <= All(n) && IsCore(slot, core) :: core == {}
  }

  /** Block b of the two tables describes exactly the keys in rem: the counter of a
      slot is the number of owners, and while there are any, its accumulator is their
      exclusive-or. */
  ghost predicate Counted(slot: SlotMap, n: nat, blockLength: nat, rem: set<nat>, b: nat,
                          count: seq<int>, acc: seq<nat>)
    requires b < HASHES
  {
    && |count| == |acc| >= 3 * blockLength
    && forall s: nat {:trigger count[s]} :: InBlock(s, b, blockLength) ==>
         && count[s] == |Users(slot, rem, b, s)|
         && (count[s] > 0 ==> acc[s] == XorAll(Users(slot, rem, b, s), n))
  }

  /** All three blocks are described, block b for the keys in rems[b]. */
  ghost predicate AllCounted(slot: SlotMap, n: nat, blockLength: nat, rems: seq<set<nat>>,
                             count: seq<int>, acc: seq<nat>)
  {
    |rems| == HASHES && forall b: nat {:trigger rems[b]} :: b < HASHES ==>
        Counted(slot, n, blockLength, rems[b], b, count, acc)
  }

  /** The stack of block b: distinct slots of the block with at most one owner left,
      among them every slot with exactly one. */
  ghost predicate StackOk(b: nat, blockLength: nat, stack: seq<nat>, count: seq<int>)
    requires b < HASHES && |count| >= 3 * blockLength
  {
    && |stack| <= blockLength
    && (forall s :: s in stack ==> InBlock(s, b, blockLength) && count[s] <= 1)
    && (forall i, j :: 0 <= i < j < |stack| ==> stack[i] != stack[j])
    && (forall s: nat {:trigger count[s]} :: InBlock(s, b, blockLength) && count[s] == 1 ==> s in stack)
  }

  /** The stack of block b holds exactly the slots of the block with one owner. */
  ghost predicate Singles(b: nat, blockLength: nat, stack: seq<nat>, count: seq<int>)
    requires b < HASHES && |count| >= 3 * blockLength
  {
    forall s: nat :: s in stack <==> InBlock(s, b, blockLength) && count[s] == 1
  }

  /** The record of a run: key order[i] was taken from its slot in block heads[i], and
      that slot is owned by no key taken later and by no key still present. */
  ghost predicate PeelOrder(slot: SlotMap, n: nat, order: seq<nat>, heads: seq<nat>, rem: set<nat>) {
    && |order| == |heads|
    && (forall i :: 0 <= i < |order| ==> order[i] < n && heads[i] < HASHES && order[i] !in rem)
    && (forall i, j :: 0 <= i < j < |order| ==>
          order[i] != order[j] && slot(order[j], heads[i]) != slot(order[i], heads[i]))
    && (forall i, k :: 0 <= i < |order| && k in rem ==> slot(k, heads[i]) != slot(order[i], heads[i]))
  }

  // ----- exclusive-or over sets of keys

  lemma {:induction false} XorAllAdd(keys: set<nat>, n: nat, k: nat)
    requires k !in keys
    ensures XorAll(keys + {k}, n) == if k < n then NatXor(XorAll(keys, n), k) else XorAll(keys, n)
  {
    if n > 0 {
      XorAllAdd(keys, n - 1, k);
      if n - 1 in keys && k < n - 1 {
        NatXorSwap(XorAll(keys, n - 1), k, n - 1);
      }
    }
  }

  lemma XorAllRemove(keys: set<nat>, n: nat, k: nat)
    requires k in keys && k < n
    ensures XorAll(keys - {k}, n) == NatXor(XorAll(keys, n), k)
  {
    var rest := keys - {k};
    assert keys == rest + {k};
    XorAllAdd(rest, n, k);
    NatXorUndo(XorAll(rest, n), k);
  }

  lemma {:induction false} XorAllEmpty(n: nat)
    ensures XorAll({}, n) == 0
  {
    if n > 0 { XorAllEmpty(n - 1); }
  }

  lemma XorAllSingle(n: nat, k: nat)
    requires k < n
    ensures XorAll({k}, n) == k
  {
    XorAllAdd({}, n, k);
    XorAllEmpty(n);
    assert {} + {k} == {k};
  }

  // ----- counting

  lemma UsersAdd(slot: SlotMap, n: nat, rem: set<nat>, b: nat, k: nat, s: nat)
    requires k < n && k !in rem
    ensures var before, after := Users(slot, rem, b, s), Users(slot, rem + {k}, b, s);
            if s == slot(k, b)
            then after == before + {k} && |after| == |before| + 1 && XorAll(after, n) == NatXor(XorAll(before, n), k)
            else after == before
  {
    var before, after := Users(slot, rem, b, s), Users(slot, rem + {k}, b, s);
    if s == slot(k, b) {
      assert after == before + {k};
      XorAllAdd(before, n, k);
    } else {
      assert after == before;
    }
  }

  lemma CountedAdd(slot: SlotMap, n: nat, blockLength: nat, rem: set<nat>, b: nat, k: nat,
                   count: seq<int>, acc: seq<nat>)
    requires b < HASHES && k < n && k !in rem && InBlock(slot(k, b), b, blockLength)
    requires Counted(slot, n, blockLength, rem, b, count, acc)
    requires count[slot(k, b)] == 0 ==> acc[slot(k, b)] == 0
    ensures var h := slot(k, b);
            Counted(slot, n, blockLength, rem + {k}, b, count[h := count[h] + 1], acc[h := NatXor(acc[h], k)])
  {
    var h := slot(k, b);
    var count', acc' := count[h := count[h] + 1], acc[h := NatXor(acc[h], k)];
    if count[h] == 0 {
      assert Users(slot, rem, b, h) == {};
      XorAllEmpty(n);
    }
    forall s: nat | InBlock(s, b, blockLength)
      ensures && count'[s] == |Users(slot, rem + {k}, b, s)|
              && (count'[s] > 0 ==> acc'[s] == XorAll(Users(slot, rem + {k}, b, s), n))
    {
      UsersAdd(slot, n, rem, b, k, s);
    }
  }

  lemma CountedRemove(slot: SlotMap, n: nat, blockLength: nat, rem: set<nat>, b: nat, k: nat,
                      count: seq<int>, acc: seq<nat>)
    requires b < HASHES && k < n && k in rem && InBlock(slot(k, b), b, blockLength)
    requires Counted(slot, n, blockLength, rem, b, count, acc)
    ensures var h := slot(k, b);
            && count[h] >= 1
            && Counted(slot, n, blockLength, rem - {k}, b, count[h := count[h] - 1], acc[h := NatXor(acc[h], k)])
  {
    var h := slot(k, b);
    assert k in Users(slot, rem, b, h);
    var count', acc' := count[h := count[h] - 1], acc[h := NatXor(acc[h], k)];
    forall s: nat | InBlock(s, b, blockLength)
      ensures && count'[s] == |Users(slot, rem - {k}, b, s)|
              && (count'[s] > 0 ==> acc'[s] == XorAll(Users(slot, rem - {k}, b, s), n))
    {
      var before, after := Users(slot, rem, b, s), Users(slot, rem - {k}, b, s);
      if s == h {
        assert after == before - {k};
        XorAllRemove(before, n, k);
      } else {
        assert after == before;
      }
    }
  }

  /** Writing one slot of a block leaves the description of the other blocks alone. */
  lemma CountedElsewhere(slot: SlotMap, n: nat, blockLength: nat, rem: set<nat>, b: nat, c: nat, h: nat,
                         count: seq<int>, acc: seq<nat>, x: int, y: nat)
    requires b < HASHES && c < HASHES && b != c && InBlock(h, b, blockLength)
    requires Counted(slot, n, blockLength, rem, c, count, acc)
    ensures Counted(slot, n, blockLength, rem, c, count[h := x], acc[h := y])
  {
    var count' := count[h := x];
    forall s: nat | InBlock(s, c, blockLength) ensures count'[s] == count[s] && acc[h := y][s] == acc[s] {}
  }

  lemma AddStep(slot: SlotMap, n: nat, blockLength: nat, rems: seq<set<nat>>, b: nat, k: nat,
                count: seq<int>, acc: seq<nat>)
    requires AllCounted(slot, n, blockLength, rems, count, acc)
    requires b < HASHES && k < n && k !in rems[b] && InBlock(slot(k, b), b, blockLength)
    requires count[slot(k, b)] == 0 ==> acc[slot(k, b)] == 0
    ensures var h := slot(k, b);
            AllCounted(slot, n, blockLength, rems[b := rems[b] + {k}], count[h := count[h] + 1],
                       acc[h := NatXor(acc[h], k)])
  {
    var h := slot(k, b);
    CountedAdd(slot, n, blockLength, rems[b], b, k, count, acc);
    forall c: nat | c < HASHES && c != b
      ensures Counted(slot, n, blockLength, rems[c], c, count[h := count[h] + 1], acc[h := NatXor(acc[h], k)])
    {
      CountedElsewhere(slot, n, blockLength, rems[c], b, c, h, count, acc, count[h] + 1, NatXor(acc[h], k));
    }
  }

  lemma RemoveStep(slot: SlotMap, n: nat, blockLength: nat, rems: seq<set<nat>>, b: nat, k: nat,
                   count: seq<int>, acc: seq<nat>)
    requires AllCounted(slot, n, blockLength, rems, count, acc)
    requires b < HASHES && k < n && k in rems[b] && InBlock(slot(k, b), b, blockLength)
    ensures var h := slot(k, b);
            && count[h] >= 1
            && AllCounted(slot, n, blockLength, rems[b := rems[b] - {k}], count[h := count[h] - 1],
                          acc[h := NatXor(acc[h], k)])
  {
    var h := slot(k, b);
    CountedRemove(slot, n, blockLength, rems[b], b, k, count, acc);
    forall c: nat | c < HASHES && c != b
      ensures Counted(slot, n, blockLength, rems[c], c, count[h := count[h] - 1], acc[h := NatXor(acc[h], k)])
    {
      CountedElsewhere(slot, n, blockLength, rems[c], b, c, h, count, acc, count[h] - 1, NatXor(acc[h], k));
    }
  }

  lemma SubsetSize(a: set<nat>, b: set<nat>)
    requires a <= b
    ensures |a| <= |b|
  {
    assert b == a + (b - a);
  }

  ghost predicate Small(count: seq<int>, acc: seq<nat>) {
    |count| == |acc| && forall s :: 0 <= s < |count| ==> 0 <= count[s] <= MAX_COUNT && (count[s] == 0 ==> acc[s] == 0)
  }

  method CountInBlock(slot: SlotMap, n: nat, blockLength: nat, count: array<int>, acc: array<nat>, b: nat, k: nat,
                      ghost rems: seq<set<nat>>) returns (ok: bool)
    requires AllCounted(slot, n, blockLength, rems, count[..], acc[..]) && Small(count[..], acc[..])
    requires b < HASHES && k < n && k !in rems[b] && InBlock(slot(k, b), b, blockLength)
    modifies count, acc
    ensures AllCounted(slot, n, blockLength, rems[b := rems[b] + {k}], count[..], acc[..])
    ensures ok ==> Small(count[..], acc[..])
    ensures !ok ==> |Users(slot, rems[b] + {k}, b, slot(k, b))| > MAX_COUNT
  {
    var h := slot(k, b);
    ghost var count0, acc0 := count[..], acc[..];
    AddStep(slot, n, blockLength, rems, b, k, count0, acc0);
    acc[h] := NatXor(acc[h], k);
    count[h] := count[h] + 1;
    assert count[..] == count0[h := count0[h] + 1];
    assert acc[..] == acc0[h := NatXor(acc0[h], k)];
    assert rems[b := rems[b] + {k}][b] == rems[b] + {k};
    assert count[..][h] == |Users(slot, rems[b] + {k}, b, h)|;
    ok := count[h] <= MAX_COUNT;
  }

  method CountKey(slot: SlotMap, n: nat, blockLength: nat, count: array<int>, acc: array<nat>, k: nat,
                  ghost before: set<nat>) returns (ok: bool)
    requires AllCounted(slot, n, blockLength, [before, before, before], count[..], acc[..])
    requires Small(count[..], acc[..]) && InBlocks(slot, n, blockLength) && k < n && k !in before
    modifies count, acc
    ensures ok ==> AllCounted(slot, n, blockLength, [before + {k}, before + {k}, before + {k}], count[..], acc[..])
    ensures ok ==> Small(count[..], acc[..])
    ensures !ok ==> exists b: nat, s: nat :: b < HASHES && |Users(slot, before + {k}, b, s)| > MAX_COUNT
  {
    ghost var rems := [before, before, before];
    for hi := 0 to HASHES
      invariant |rems| == HASHES && forall b: nat :: b < HASHES ==> rems[b] == if b < hi then before + {k} else before
      invariant AllCounted(slot, n, blockLength, rems, count[..], acc[..]) && Small(count[..], acc[..])
    {
      ok := CountInBlock(slot, n, blockLength, count, acc, hi, k, rems);
      rems := rems[hi := rems[hi] + {k}];
      if !ok { return false; }
    }
    assert rems == [before + {k}, before + {k}, before + {k}];
    return true;
  }

  /** The counting pass. It stops, as the construction gives up, exactly when some slot
      has more than 120 owners. */
  method CountSlots(slot: SlotMap, n: nat, blockLength: nat, count: array<int>, acc: array<nat>) returns (ok: bool)
    requires InBlocks(slot, n, blockLength)
    requires count.Length == acc.Length >= 3 * blockLength
    requires forall s :: 0 <= s < count.Length ==> count[s] == 0 && acc[s] == 0
    modifies count, acc
    ensures ok == !Overfull(slot, n)
    ensures ok ==> AllCounted(slot, n, blockLength, [All(n), All(n), All(n)], count[..], acc[..])
  {
    hide Overfull, InBlocks, Counted, Users, AllCounted, All;
    NothingCounted(slot, n, blockLength, count[..], acc[..]);
    for i := 0 to n
      invariant AllCounted(slot, n, blockLength, [All(i), All(i), All(i)], count[..], acc[..])
      invariant Small(count[..], acc[..])
    {
      ok := CountKey(slot, n, blockLength, count, acc, i, All(i));
      AllStep(i);
      if !ok {
        OverfullStays(slot, i + 1, n);
        return false;
      }
    }
    NotOverfull(slot, n, blockLength, count[..], acc[..]);
    return true;
  }

  lemma AllStep(i: nat)
    ensures All(i + 1) == All(i) + {i}
  {}

  lemma NothingCounted(slot: SlotMap, n: nat, blockLength: nat, count: seq<int>, acc: seq<nat>)
    requires |count| == |acc| >= 3 * blockLength && forall s :: 0 <= s < |count| ==> count[s] == 0 && acc[s] == 0
    ensures AllCounted(slot, n, blockLength, [All(0), All(0), All(0)], count, acc)
  {
    forall b: nat, s: nat | b < HASHES ensures Users(slot, {}, b, s) == {} {}
  }

  lemma OverfullStays(slot: SlotMap, m: nat, n: nat)
    requires m <= n && Overfull(slot, m)
    ensures Overfull(slot, n)
  {
    var b: nat, s: nat :| b < HASHES && |Users(slot, All(m), b, s)| > MAX_COUNT;
    SubsetSize(Users(slot, All(m), b, s), Users(slot, All(n), b, s));
  }

  lemma NotOverfull(slot: SlotMap, n: nat, blockLength: nat, count: seq<int>, acc: seq<nat>)
    requires InBlocks(slot, n, blockLength)
    requires AllCounted(slot, n, blockLength, [All(n), All(n), All(n)], count, acc)
    requires forall s :: 0 <= s < |count| ==> count[s] <= MAX_COUNT
    ensures !Overfull(slot, n)
  {
    var rems := [All(n), All(n), All(n)];
    forall b: nat, s: nat | b < HASHES
      ensures |Users(slot, All(n), b, s)| <= MAX_COUNT
    {
      assert rems[b] == All(n);
      if InBlock(s, b, blockLength) {
        assert count[s] == |Users(slot, All(n), b, s)|;
      } else {
        assert Users(slot, All(n), b, s) == {};
      }
    }
  }

  // ----- peeling

  lemma {:induction false} RangeSize(lo: nat, len: nat) returns (range: set<nat>)
    ensures |range| == len && forall s: nat :: s in range <==> lo <= s < lo + len
  {
    if len == 0 {
      range := {};
    } else {
      var rest := RangeSize(lo, len - 1);
      range := rest + {lo + len - 1};
    }
  }

  lemma {:induction false} DistinctSize(stack: seq<nat>) returns (members: set<nat>)
    requires forall i, j :: 0 <= i < j < |stack| ==> stack[i] != stack[j]
    ensures |members| == |stack| && forall s :: s in members <==> s in stack
  {
    if stack == [] {
      members := {};
    } else {
      var rest := DistinctSize(stack[1..]);
      members := rest + {stack[0]};
    }
  }

  /** There is room for a slot that is not on the stack yet. */
  lemma StackHasRoom(b: nat, blockLength: nat, stack: seq<nat>, count: seq<int>, h: nat)
    requires b < HASHES && |count| >= 3 * blockLength
    requires StackOk(b, blockLength, stack, count) && InBlock(h, b, blockLength) && h !in stack
    ensures |stack| < blockLength
  {
    var members := DistinctSize(stack);
    var range := RangeSize(Start(b, blockLength), blockLength);
    assert members + {h} <= range;
    SubsetSize(members + {h}, range);
  }

  ghost predicate StacksOk(blockLength: nat, stacks: seq<seq<nat>>, count: seq<int>) {
    && |count| >= 3 * blockLength && |stacks| == HASHES
    && forall b: nat {:trigger stacks[b]} :: b < HASHES ==> StackOk(b, blockLength, stacks[b], count)
  }

  ghost predicate Apart(alone: seq<array<nat>>, alonePos: array<nat>, acc: array<nat>, blockLength: nat) {
    && |alone| == HASHES && alonePos.Length == HASHES && alonePos != acc
    && alone[0] != alone[1] && alone[0] != alone[2] && alone[1] != alone[2]
    && acc !in alone && alonePos !in alone
    && alone[0].Length == alone[1].Length == alone[2].Length == blockLength
  }

  /** The used part of each of the three fixed-size stacks. */
  ghost function Stacks(alone: seq<array<nat>>, alonePos: array<nat>): (stacks: seq<seq<nat>>)
    requires |alone| == HASHES && alonePos.Length == HASHES
    reads alonePos, alone
    ensures |stacks| == HASHES
  {
    [Used(alone[0], alonePos[0]), Used(alone[1], alonePos[1]), Used(alone[2], alonePos[2])]
  }

  ghost function Used(a: array<nat>, len: nat): seq<nat>
    reads a
  {
    if len <= a.Length then a[..len] else a[..]
  }

  ghost predicate Fit(alonePos: array<nat>, blockLength: nat)
    requires alonePos.Length == HASHES
    reads alonePos
  {
    alonePos[0] <= blockLength && alonePos[1] <= blockLength && alonePos[2] <= blockLength
  }

  /** Taking one owner away from slot h keeps the stack of its block right, once h has
      been pushed if it is now down to one owner. */
  lemma StackAfterRemoval(b: nat, blockLength: nat, stack: seq<nat>, count: seq<int>, h: nat)
    requires b < HASHES && |count| >= 3 * blockLength && InBlock(h, b, blockLength) && count[h] >= 1
    requires StackOk(b, blockLength, stack, count)
    ensures var count' := count[h := count[h] - 1];
            if count[h] == 2
            then |stack| < blockLength && StackOk(b, blockLength, stack + [h], count')
            else StackOk(b, blockLength, stack, count')
  {
    if count[h] == 2 {
      StackHasRoom(b, blockLength, stack, count, h);
    }
  }

  lemma StackElsewhere(b: nat, c: nat, blockLength: nat, stack: seq<nat>, count: seq<int>, h: nat, x: int)
    requires b < HASHES && c < HASHES && b != c && |count| >= 3 * blockLength && InBlock(h, b, blockLength)
    requires StackOk(c, blockLength, stack, count)
    ensures StackOk(c, blockLength, stack, count[h := x])
  {}

  lemma StacksAfterRemoval(b: nat, blockLength: nat, stacks: seq<seq<nat>>, count: seq<int>, h: nat)
    requires b < HASHES && StacksOk(blockLength, stacks, count) && InBlock(h, b, blockLength) && count[h] >= 1
    ensures var count' := count[h := count[h] - 1];
            if count[h] == 2
            then |stacks[b]| < blockLength && StacksOk(blockLength, stacks[b := stacks[b] + [h]], count')
            else StacksOk(blockLength, stacks, count')
  {
    StackAfterRemoval(b, blockLength, stacks[b], count, h);
    forall c: nat | c < HASHES && c != b
      ensures StackOk(c, blockLength, stacks[c], count[h := count[h] - 1])
    {
      StackElsewhere(b, c, blockLength, stacks[c], count, h, count[h] - 1);
    }
  }

  method Push(alone: seq<array<nat>>, alonePos: array<nat>, ghost acc: array<nat>, b: nat, h: nat,
              ghost blockLength: nat)
    requires Apart(alone, alonePos, acc, blockLength) && Fit(alonePos, blockLength)
    requires b < HASHES && |Stacks(alone, alonePos)[b]| < blockLength
    modifies alonePos, alone
    ensures Fit(alonePos, blockLength)
    ensures Stacks(alone, alonePos) == old(Stacks(alone, alonePos))[b := old(Stacks(alone, alonePos))[b] + [h]]
  {
    ghost var stack0 := alone[b][..alonePos[b]];
    alone[b][alonePos[b]] := h;
    alonePos[b] := alonePos[b] + 1;
    assert alone[b][..alonePos[b]] == stack0 + [h];
  }

  /** Takes key k out of its slot of block b, pushing the slot if one owner is left. */
  method RemoveFromBlock(slot: SlotMap, n: nat, blockLength: nat, count: array<int>, acc: array<nat>,
                         alone: seq<array<nat>>, alonePos: array<nat>, b: nat, k: nat, ghost rems: seq<set<nat>>)
    requires Apart(alone, alonePos, acc, blockLength) && Fit(alonePos, blockLength)
    requires AllCounted(slot, n, blockLength, rems, count[..], acc[..])
    requires StacksOk(blockLength, Stacks(alone, alonePos), count[..])
    requires b < HASHES && k < n && k in rems[b] && InBlock(slot(k, b), b, blockLength)
    modifies count, acc, alonePos, alone
    ensures AllCounted(slot, n, blockLength, rems[b := rems[b] - {k}], count[..], acc[..])
    ensures StacksOk(blockLength, Stacks(alone, alonePos), count[..]) && Fit(alonePos, blockLength)
  {
    var h := slot(k, b);
    ghost var count0, acc0 := count[..], acc[..];
    RemoveStep(slot, n, blockLength, rems, b, k, count0, acc0);
    StacksAfterRemoval(b, blockLength, Stacks(alone, alonePos), count0, h);
    var newCount := count[h] - 1;
    count[h] := newCount;
    if newCount == 1 {
      Push(alone, alonePos, acc, b, h, blockLength);
    }
    acc[h] := NatXor(acc[h], k);
    assert count[..] == count0[h := count0[h] - 1];
    assert acc[..] == acc0[h := NatXor(acc0[h], k)];
  }

  /** Takes key k, already gone from block found, out of the two other blocks. */
  method RemoveKey(slot: SlotMap, n: nat, blockLength: nat, count: array<int>, acc: array<nat>,
                   alone: seq<array<nat>>, alonePos: array<nat>, found: nat, k: nat, ghost rem: set<nat>)
    requires Apart(alone, alonePos, acc, blockLength) && Fit(alonePos, blockLength) && InBlocks(slot, n, blockLength)
    requires found < HASHES && k < n && k in rem
    requires AllCounted(slot, n, blockLength, [rem, rem, rem][found := rem - {k}], count[..], acc[..])
    requires StacksOk(blockLength, Stacks(alone, alonePos), count[..])
    modifies count, acc, alonePos, alone
    ensures AllCounted(slot, n, blockLength, [rem - {k}, rem - {k}, rem - {k}], count[..], acc[..])
    ensures StacksOk(blockLength, Stacks(alone, alonePos), count[..]) && Fit(alonePos, blockLength)
  {
    ghost var rems := [rem, rem, rem][found := rem - {k}];
    for hi := 0 to HASHES
      invariant |rems| == HASHES
      invariant forall b: nat :: b < HASHES ==> rems[b] == if b < hi || b == found then rem - {k} else rem
      invariant AllCounted(slot, n, blockLength, rems, count[..], acc[..])
      invariant StacksOk(blockLength, Stacks(alone, alonePos), count[..]) && Fit(alonePos, blockLength)
    {
      if hi != found {
        RemoveFromBlock(slot, n, blockLength, count, acc, alone, alonePos, hi, k, rems);
        rems := rems[hi := rems[hi] - {k}];
      }
    }
    assert rems == [rem - {k}, rem - {k}, rem - {k}];
  }

  // ----- the initial stacks

  /** The stack of block b after its first len slots have been looked at. */
  ghost predicate StackUpTo(b: nat, blockLength: nat, len: nat, stack: seq<nat>, count: seq<int>)
    requires b < HASHES && |count| >= 3 * blockLength
  {
    && len <= blockLength && |stack| <= len
    && (forall s :: s in stack ==> InBlock(s, b, blockLength) && s < Start(b, blockLength) + len && count[s] == 1)
    && (forall i, j :: 0 <= i < j < |stack| ==> stack[i] != stack[j])
    && (forall s: nat {:trigger count[s]} ::
          InBlock(s, b, blockLength) && s < Start(b, blockLength) + len && count[s] == 1 ==> s in stack)
  }

  lemma StackUpToStep(b: nat, blockLength: nat, len: nat, stack: seq<nat>, count: seq<int>)
    requires b < HASHES && |count| >= 3 * blockLength && len < blockLength
    requires StackUpTo(b, blockLength, len, stack, count)
    ensures var s := Start(b, blockLength) + len;
            |stack| < blockLength
                && StackUpTo(b, blockLength, len + 1, if count[s] == 1 then stack + [s] else stack, count)
  {}

  method FindAloneInBlock(blockLength: nat, count: array<int>, ghost acc: array<nat>, alone: seq<array<nat>>,
                          alonePos: array<nat>, b: nat)
    requires Apart(alone, alonePos, acc, blockLength) && Fit(alonePos, blockLength) && count.Length >= 3 * blockLength
    requires b < HASHES && Stacks(alone, alonePos)[b] == []
    modifies alonePos, alone
    ensures Fit(alonePos, blockLength)
    ensures forall c: nat :: c < HASHES && c != b ==> Stacks(alone, alonePos)[c] == old(Stacks(alone, alonePos))[c]
    ensures StackOk(b, blockLength, Stacks(alone, alonePos)[b], count[..])
    ensures Singles(b, blockLength, Stacks(alone, alonePos)[b], count[..])
  {
    hide StackUpTo, StackOk, Singles;
    ghost var stacks, counted := Stacks(alone, alonePos), count[..];
    ghost var stack: seq<nat> := [];
    StackUpToEnds(b, blockLength, [], counted);
    assert stacks == stacks[b := []];
    for i := 0 to blockLength
      invariant Fit(alonePos, blockLength)
      invariant Stacks(alone, alonePos) == stacks[b := stack]
      invariant StackUpTo(b, blockLength, i, stack, counted)
    {
      StackUpToStep(b, blockLength, i, stack, counted);
      StartInBlock(b, blockLength, i, count.Length);
      var s := Start(b, blockLength) + i;
      if count[s] == 1 {
        Push(alone, alonePos, acc, b, s, blockLength);
        stack := stack + [s];
      }
    }
    StackUpToEnds(b, blockLength, stack, counted);
  }

  lemma StackUpToEnds(b: nat, blockLength: nat, stack: seq<nat>, count: seq<int>)
    requires b < HASHES && |count| >= 3 * blockLength
    ensures StackUpTo(b, blockLength, 0, [], count)
    ensures StackUpTo(b, blockLength, blockLength, stack, count) ==>
              StackOk(b, blockLength, stack, count) && Singles(b, blockLength, stack, count)
  {}

  lemma StartInBlock(b: nat, blockLength: nat, i: nat, length: nat)
    requires b < HASHES && i < blockLength && length >= 3 * blockLength
    ensures Start(b, blockLength) + i < length
  {}

  /** Fills the three stacks with the slots that have a single owner. */
  method FindAlone(blockLength: nat, count: array<int>, ghost acc: array<nat>, alone: seq<array<nat>>,
                   alonePos: array<nat>)
    requires Apart(alone, alonePos, acc, blockLength) && count.Length >= 3 * blockLength
    requires alonePos[0] == alonePos[1] == alonePos[2] == 0
    modifies alonePos, alone
    ensures StacksOk(blockLength, Stacks(alone, alonePos), count[..]) && Fit(alonePos, blockLength)
    ensures forall b: nat :: b < HASHES ==> Singles(b, blockLength, Stacks(alone, alonePos)[b], count[..])
  {
    hide Singles;
    for nextAlone := 0 to HASHES
      invariant Fit(alonePos, blockLength)
      invariant forall c: nat :: nextAlone <= c < HASHES ==> Stacks(alone, alonePos)[c] == []
      invariant forall c: nat :: c < nextAlone ==> StackOk(c, blockLength, Stacks(alone, alonePos)[c], count[..])
      invariant forall c: nat :: c < nextAlone ==> Singles(c, blockLength, Stacks(alone, alonePos)[c], count[..])
    {
      FindAloneInBlock(blockLength, count, acc, alone, alonePos, nextAlone);
    }
  }

  // ----- one attempt

  /** Pops from the first stack that is not empty. */
  method Pop(alone: seq<array<nat>>, alonePos: array<nat>, ghost acc: array<nat>, ghost blockLength: nat)
    returns (found: int, s: nat)
    requires Apart(alone, alonePos, acc, blockLength) && Fit(alonePos, blockLength)
    modifies alonePos
    ensures Fit(alonePos, blockLength)
    ensures found == -1 ==> Stacks(alone, alonePos) == old(Stacks(alone, alonePos)) == [[], [], []]
    ensures found != -1 ==>
      && 0 <= found < HASHES && old(Stacks(alone, alonePos))[found] != []
      && (forall b: nat :: b < found ==> old(Stacks(alone, alonePos))[b] == [])
      && (var stack := old(Stacks(alone, alonePos))[found];
          && s == stack[|stack| - 1]
          && Stacks(alone, alonePos) == old(Stacks(alone, alonePos))[found := stack[..|stack| - 1]])
    ensures found != -1 ==> alonePos[0] + alonePos[1] + alonePos[2] < old(alonePos[0] + alonePos[1] + alonePos[2])
  {
    for hi := 0 to HASHES
      invariant alonePos[..] == old(alonePos[..])
      invariant forall b: nat :: b < hi ==> alonePos[b] == 0
    {
      if alonePos[hi] > 0 {
        ghost var stack := alone[hi][..alonePos[hi]];
        alonePos[hi] := alonePos[hi] - 1;
        assert alone[hi][..alonePos[hi]] == stack[..|stack| - 1];
        return hi, alone[hi][alonePos[hi]];
      }
    }
    return -1, 0;
  }

  lemma StackAfterPop(b: nat, blockLength: nat, stack: seq<nat>, count: seq<int>)
    requires b < HASHES && |count| >= 3 * blockLength && StackOk(b, blockLength, stack, count) && stack != []
    ensures var s, rest := stack[|stack| - 1], stack[..|stack| - 1];
            && InBlock(s, b, blockLength) && s < |count| && count[s] <= 1
            && (count[s] <= 0 ==> StackOk(b, blockLength, rest, count))
            && (count[s] == 1 ==> StackOk(b, blockLength, rest, count[s := 0]))
  {
    var s, rest := stack[|stack| - 1], stack[..|stack| - 1];
    assert s in stack && stack == rest + [s];
    forall t | t in rest ensures t in stack && t != s {
      var i :| 0 <= i < |rest| && rest[i] == t;
      assert stack[i] == t;
    }
    forall t: nat | InBlock(t, b, blockLength) && count[t] == 1 && t != s ensures t in rest { assert t in stack; }
  }

  /** A popped slot without owners can be forgotten; one with a single owner can be once
      its counter is zero. */
  lemma StacksAfterPop(b: nat, blockLength: nat, stacks: seq<seq<nat>>, count: seq<int>)
    requires StacksOk(blockLength, stacks, count) && b < HASHES && stacks[b] != []
    ensures var stack := stacks[b];
            var s := stack[|stack| - 1];
            && InBlock(s, b, blockLength) && count[s] <= 1
            && (count[s] <= 0 ==> StacksOk(blockLength, stacks[b := stack[..|stack| - 1]], count))
            && (count[s] == 1 ==> StacksOk(blockLength, stacks[b := stack[..|stack| - 1]], count[s := 0]))
  {
    hide StackOk;
    var s := stacks[b][|stacks[b]| - 1];
    StackAfterPop(b, blockLength, stacks[b], count);
    if count[s] == 1 {
      forall c: nat | c < HASHES && c != b ensures StackOk(c, blockLength, stacks[c], count[s := 0]) {
        StackElsewhere(b, c, blockLength, stacks[c], count, s, 0);
      }
    }
  }

  /** The accumulator of a slot with one owner names that owner. */
  lemma SingleOwner(slot: SlotMap, n: nat, blockLength: nat, rem: set<nat>, b: nat, s: nat, count: seq<int>,
                    acc: seq<nat>)
    requires AllCounted(slot, n, blockLength, [rem, rem, rem], count, acc)
    requires |count| == |acc| >= 3 * blockLength
    requires b < HASHES && rem <= All(n) && InBlock(s, b, blockLength) && count[s] == 1
    ensures var k := acc[s];
            && k in rem && slot(k, b) == s && Users(slot, rem, b, s) == {k}
            && AllCounted(slot, n, blockLength, [rem, rem, rem][b := rem - {k}], count[s := 0], acc)
  {
    assert [rem, rem, rem][b] == rem;
    var owners := Users(slot, rem, b, s);
    var k :| k in owners;
    SubsetSize({k}, owners);
    assert |owners - {k}| == 0;
    assert owners == {k};
    XorAllSingle(n, k);
    var rems := [rem, rem, rem][b := rem - {k}];
    forall c: nat | c < HASHES ensures Counted(slot, n, blockLength, rems[c], c, count[s := 0], acc) {
      assert [rem, rem, rem][c] == rem;
      if c != b {
        CountedElsewhere(slot, n, blockLength, rem, b, c, s, count, acc, 0, acc[s]);
      } else {
        forall t: nat | InBlock(t, b, blockLength)
          ensures Users(slot, rem - {k}, b, t) == if t == s then {} else Users(slot, rem, b, t)
        {}
      }
    }
  }

  lemma OnlyOwner(slot: SlotMap, rem: set<nat>, b: nat, k: nat)
    requires Users(slot, rem, b, slot(k, b)) == {k}
    ensures k in rem
    ensures forall other | other in rem && slot(other, b) == slot(k, b) :: other == k
  {
    assert k in Users(slot, rem, b, slot(k, b));
    forall other | other in rem && slot(other, b) == slot(k, b) ensures other == k {
      assert other in Users(slot, rem, b, slot(k, b));
    }
  }

  /** A key that is alone in a slot is in no core of the keys still present. */
  lemma CoreSurvives(slot: SlotMap, n: nat, rem: set<nat>, b: nat, k: nat)
    requires b < HASHES && Users(slot, rem, b, slot(k, b)) == {k}
    requires forall core: set<nat> | core <= All(n) && IsCore(slot, core) :: core <= rem
    ensures forall core: set<nat> | core <= All(n) && IsCore(slot, core) :: core <= rem - {k}
  {
    OnlyOwner(slot, rem, b, k);
    forall core: set<nat> | core <= All(n) && IsCore(slot, core) ensures k !in core {
      assert k in core ==> Shared(slot, core, k, b);
    }
  }

  /** When no slot is left with one owner, the remaining keys are a core. */
  lemma RemainderShared(slot: SlotMap, n: nat, blockLength: nat, rem: set<nat>, count: seq<int>, acc: seq<nat>, k: nat,
                        b: nat)
    requires InBlocks(slot, n, blockLength) && rem <= All(n) && k in rem && b < HASHES
    requires AllCounted(slot, n, blockLength, [rem, rem, rem], count, acc)
    requires StacksOk(blockLength, [[], [], []], count)
    ensures Shared(slot, rem, k, b)
  {
    var s := slot(k, b);
    var owners := Users(slot, rem, b, s);
    var stacks: seq<seq<nat>> := [[], [], []];
    assert [rem, rem, rem][b] == rem && stacks[b] == [];
    assert k in owners && count[s] == |owners| != 1;
    if owners == {k} { assert false; }
    var other :| other in owners && other != k;
  }

  lemma RemainderIsCore(slot: SlotMap, n: nat, blockLength: nat, rem: set<nat>, count: seq<int>, acc: seq<nat>)
    requires InBlocks(slot, n, blockLength) && rem <= All(n)
    requires AllCounted(slot, n, blockLength, [rem, rem, rem], count, acc)
    requires StacksOk(blockLength, [[], [], []], count)
    ensures IsCore(slot, rem)
  {
    hide InBlocks, AllCounted, StacksOk, Shared, Users;
    forall k, b: nat | k in rem && b < HASHES ensures Shared(slot, rem, k, b) {
      RemainderShared(slot, n, blockLength, rem, count, acc, k, b);
    }
  }

  lemma OrderGrows(slot: SlotMap, n: nat, order: seq<nat>, heads: seq<nat>, rem: set<nat>, b: nat, k: nat)
    requires PeelOrder(slot, n, order, heads, rem) && b < HASHES && k < n
    requires Users(slot, rem, b, slot(k, b)) == {k}
    ensures PeelOrder(slot, n, order + [k], heads + [b], rem - {k})
  {
    OnlyOwner(slot, rem, b, k);
  }

  /** What a run has recorded and what it has left: every key is in exactly one of the two,
      and every core is still among the keys left. */
  ghost predicate Progress(slot: SlotMap, n: nat, order: seq<nat>, heads: seq<nat>, rem: set<nat>) {
    && PeelOrder(slot, n, order, heads, rem)
    && rem <= All(n) && |order| + |rem| == n
    && (forall k: nat :: k < n ==> k in rem || k in order)
    && (forall core: set<nat> | core <= All(n) && IsCore(slot, core) :: core <= rem)
  }

  lemma ProgressStarts(slot: SlotMap, n: nat)
    ensures Progress(slot, n, [], [], All(n))
  {}

  lemma ProgressStep(slot: SlotMap, n: nat, order: seq<nat>, heads: seq<nat>, rem: set<nat>, b: nat, k: nat)
    requires Progress(slot, n, order, heads, rem) && b < HASHES && k in rem
    requires Users(slot, rem, b, slot(k, b)) == {k}
    ensures |order| < n
    ensures Progress(slot, n, order + [k], heads + [b], rem - {k})
  {
    OrderGrows(slot, n, order, heads, rem, b, k);
    CoreSurvives(slot, n, rem, b, k);
    assert |rem - {k}| == |rem| - 1;
  }

  /** Removes the one owner of a popped slot. */
  method PeelSlot(slot: SlotMap, n: nat, blockLength: nat, count: array<int>, acc: array<nat>, alone: seq<array<nat>>,
                  alonePos: array<nat>, found: nat, s: nat, ghost rem: set<nat>)
    returns (k: nat, unexpectedCount: bool)
    requires InBlocks(slot, n, blockLength) && rem <= All(n)
    requires Apart(alone, alonePos, acc, blockLength) && Fit(alonePos, blockLength)
    requires AllCounted(slot, n, blockLength, [rem, rem, rem], count[..], acc[..])
    requires count.Length == acc.Length >= 3 * blockLength
    requires found < HASHES && InBlock(s, found, blockLength) && count[s] == 1
    requires StacksOk(blockLength, Stacks(alone, alonePos), count[..][s := 0])
    modifies count, acc, alonePos, alone
    ensures !unexpectedCount && k in rem && Users(slot, rem, found, slot(k, found)) == {k}
    ensures AllCounted(slot, n, blockLength, [rem - {k}, rem - {k}, rem - {k}], count[..], acc[..])
    ensures StacksOk(blockLength, Stacks(alone, alonePos), count[..]) && Fit(alonePos, blockLength)
  {
    ghost var count0 := count[..];
    SingleOwner(slot, n, blockLength, rem, found, s, count0, acc[..]);
    k, unexpectedCount := acc[s], false;
    count[s] := count[s] - 1;
    assert count[..] == count0[s := 0];
    if count[s] != 0 {
      return k, true;
    }
    RemoveKey(slot, n, blockLength, count, acc, alone, alonePos, found, k, rem);
  }

  method Record(reverseOrder: array<nat>, reverseH: array<nat>, pos: nat, k: nat, found: nat)
    requires reverseOrder != reverseH && pos < reverseOrder.Length == reverseH.Length
    modifies reverseOrder, reverseH
    ensures reverseOrder[..pos + 1] == old(reverseOrder[..pos]) + [k]
    ensures reverseH[..pos + 1] == old(reverseH[..pos]) + [found]
  {
    reverseOrder[pos] := k;
    reverseH[pos] := found;
  }

  datatype Round = Exhausted | Skipped | Peeled(k: nat, found: nat) | UnexpectedCount

  ghost predicate Ready(slot: SlotMap, n: nat, blockLength: nat, count: array<int>, acc: array<nat>,
                        alone: seq<array<nat>>, alonePos: array<nat>, rem: set<nat>)
    reads count, acc, alonePos, alone
  {
    && Apart(alone, alonePos, acc, blockLength) && Fit(alonePos, blockLength)
    && count.Length == acc.Length >= 3 * blockLength
    && AllCounted(slot, n, blockLength, [rem, rem, rem], count[..], acc[..])
    && StacksOk(blockLength, Stacks(alone, alonePos), count[..])
  }

  /** One turn of the peeling loop: the stacks are empty, or a popped slot is skipped
      because its owner is gone, or its one owner is peeled. A popped slot never has any
      other count. */
  method PeelRound(slot: SlotMap, n: nat, blockLength: nat, count: array<int>, acc: array<nat>, alone: seq<array<nat>>,
                   alonePos: array<nat>, ghost rem: set<nat>)
    returns (round: Round)
    requires InBlocks(slot, n, blockLength) && rem <= All(n)
    requires Ready(slot, n, blockLength, count, acc, alone, alonePos, rem)
    modifies count, acc, alonePos, alone
    ensures !round.UnexpectedCount?
    ensures Ready(slot, n, blockLength, count, acc, alone, alonePos, if round.Peeled? then rem - {round.k} else rem)
    ensures round.Exhausted? ==> IsCore(slot, rem)
    ensures round.Skipped? ==> alonePos[0] + alonePos[1] + alonePos[2] < old(alonePos[0] + alonePos[1] + alonePos[2])
    ensures round.Peeled? ==>
      && round.k in rem && round.found < HASHES
      && Users(slot, rem, round.found, slot(round.k, round.found)) == {round.k}
  {
    ghost var stacks0 := Stacks(alone, alonePos);
    var found, s := Pop(alone, alonePos, acc, blockLength);
    if found == -1 {
      RemainderIsCore(slot, n, blockLength, rem, count[..], acc[..]);
      return Exhausted;
    }
    StacksAfterPop(found, blockLength, stacks0, count[..]);
    if count[s] <= 0 { return Skipped; }
    var k, unexpectedCount := PeelSlot(slot, n, blockLength, count, acc, alone, alonePos, found, s, rem);
    return if unexpectedCount then UnexpectedCount else Peeled(k, found);
  }

  /** The peeling loop. The keys left over are the largest core, so all keys are peeled
      exactly when there is no core but the empty one. */
  method Peel(slot: SlotMap, n: nat, blockLength: nat, count: array<int>, acc: array<nat>, alone: seq<array<nat>>,
              alonePos: array<nat>, reverseOrder: array<nat>, reverseH: array<nat>)
    returns (pos: nat, unexpectedCount: bool, ghost rem: set<nat>)
    requires InBlocks(slot, n, blockLength)
    requires Ready(slot, n, blockLength, count, acc, alone, alonePos, All(n))
    requires {reverseOrder, reverseH} !! {acc, alonePos} && reverseOrder !in alone && reverseH !in alone
    requires reverseOrder != reverseH && reverseOrder.Length == reverseH.Length >= n
    modifies count, acc, alonePos, alone, reverseOrder, reverseH
    ensures !unexpectedCount
    ensures pos <= n && Progress(slot, n, reverseOrder[..pos], reverseH[..pos], rem) && IsCore(slot, rem)
    ensures pos == n <==> Peelable(slot, n)
    ensures pos == n ==> rem == {}
  {
    hide IsCore, InBlocks, All, AllCounted, StacksOk, Users, PeelOrder;
    pos, rem, unexpectedCount := 0, All(n), false;
    ProgressStarts(slot, n);
    assert reverseOrder[..0] == reverseH[..0] == [];
    while true
      invariant pos <= n && Progress(slot, n, reverseOrder[..pos], reverseH[..pos], rem)
      invariant Ready(slot, n, blockLength, count, acc, alone, alonePos, rem)
      invariant !unexpectedCount
      decreases |rem|, alonePos[0] + alonePos[1] + alonePos[2]
    {
      var round := PeelRound(slot, n, blockLength, count, acc, alone, alonePos, rem);
      match round
      case Exhausted => break;
      case Skipped =>
      case UnexpectedCount => unexpectedCount := true; return;
      case Peeled(k, found) =>
        ProgressStep(slot, n, reverseOrder[..pos], reverseH[..pos], rem, found, k);
        Record(reverseOrder, reverseH, pos, k, found);
        pos, rem := pos + 1, rem - {k};
    }
  }
}
