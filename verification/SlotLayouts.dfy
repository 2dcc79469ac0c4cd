/** How many slots a complete peel needs, and slot maps that get by with as few as possible. */
module SlotLayouts {
  import opened Arith
  import opened Peeling
  import opened Sequences

  // ----- how many slots a peel needs

  ghost function SlotsUsed(slot: SlotMap, keys: set<nat>): set<nat> {
    set k, b: nat | k in keys && b < HASHES :: slot(k, b)
  }

  /** Without a slot of its own a key set is a core; with it, that slot is used by no other key. */
  lemma PrivateSlot(slot: SlotMap, n: nat, blockLength: nat, keys: set<nat>) returns (k: nat, b: nat)
    requires InBlocks(slot, n, blockLength) && keys <= All(n) && !IsCore(slot, keys)
    ensures k in keys && b < HASHES && slot(k, b) in SlotsUsed(slot, keys) - SlotsUsed(slot, keys - {k})
  {
    k, b :| k in keys && b < HASHES && !Shared(slot, keys, k, b);
    forall other, c: nat | other in keys - {k} && c < HASHES ensures slot(other, c) != slot(k, b) {
      assert InBlock(slot(other, c), c, blockLength) && InBlock(slot(k, b), b, blockLength);
    }
  }

  /** Each key that is peeled leaves a slot of its own behind, and the last one has three. */
  lemma {:induction false} NeedsSlots(slot: SlotMap, n: nat, blockLength: nat, keys: set<nat>)
    requires InBlocks(slot, n, blockLength) && keys <= All(n) && keys != {}
    requires forall core: set<nat> | core <= keys && IsCore(slot, core) :: core == {}
    ensures |SlotsUsed(slot, keys)| >= |keys| + 2
    decreases keys
  {
    var k, b := PrivateSlot(slot, n, blockLength, keys);
    var rest := keys - {k};
    if rest == {} {
      ThreeSlots(slot, n, blockLength, k);
      assert keys == {k};
    } else {
      NeedsSlots(slot, n, blockLength, rest);
      SubsetSize(SlotsUsed(slot, rest) + {slot(k, b)}, SlotsUsed(slot, keys));
    }
  }

  lemma ThreeSlots(slot: SlotMap, n: nat, blockLength: nat, k: nat)
    requires InBlocks(slot, n, blockLength) && k < n
    ensures |SlotsUsed(slot, {k})| == 3
  {
    assert InBlock(slot(k, 0), 0, blockLength) && InBlock(slot(k, 1), 1, blockLength);
    assert InBlock(slot(k, 2), 2, blockLength);
    assert SlotsUsed(slot, {k}) == {slot(k, 0), slot(k, 1), slot(k, 2)};
  }

  /** A complete peel needs two slots more than there are keys. */
  lemma PeelNeedsRoom(slot: SlotMap, n: nat, blockLength: nat)
    requires InBlocks(slot, n, blockLength) && Peelable(slot, n) && n > 0
    ensures n + 2 <= 3 * blockLength
  {
    var used := SlotsUsed(slot, All(n));
    assert 0 in All(n);
    NeedsSlots(slot, n, blockLength, All(n));
    forall s | s in used ensures s in All(3 * blockLength) {
      var k, b: nat :| k in All(n) && b < HASHES && slot(k, b) == s;
      assert InBlock(slot(k, b), b, blockLength);
    }
    SubsetSize(used, All(3 * blockLength));
  }

  /** Few keys overfill no slot. */
  lemma FewNeverOverfull(slot: SlotMap, n: nat)
    requires n <= MAX_COUNT
    ensures !Overfull(slot, n)
  {
    forall b: nat, s: nat | b < HASHES
      ensures |Users(slot, All(n), b, s)| <= n
    {
      SubsetSize(Users(slot, All(n), b, s), All(n));
    }
  }

  // ----- every peelable map has a complete peel

  lemma {:induction false} PeelFrom(slot: SlotMap, n: nat, order: seq<nat>, heads: seq<nat>, rem: set<nat>)
    returns (order': seq<nat>, heads': seq<nat>)
    requires Peelable(slot, n) && Progress(slot, n, order, heads, rem)
    ensures Progress(slot, n, order', heads', {})
    decreases rem
  {
    order', heads' := order, heads;
    if rem != {} {
      var k, b: nat :| k in rem && b < HASHES && !Shared(slot, rem, k, b);
      assert Users(slot, rem, b, slot(k, b)) == {k};
      ProgressStep(slot, n, order, heads, rem, b, k);
      order', heads' := PeelFrom(slot, n, order + [k], heads + [b], rem - {k});
    }
  }

  lemma CompletePeel(slot: SlotMap, n: nat) returns (order: seq<nat>, heads: seq<nat>)
    requires Peelable(slot, n)
    ensures Progress(slot, n, order, heads, {})
  {
    ProgressStarts(slot, n);
    order, heads := PeelFrom(slot, n, [], [], All(n));
  }

  /** In a complete peel a key that shares the slot another key was peeled from went before it. */
  lemma SharerFirst(slot: SlotMap, n: nat, order: seq<nat>, heads: seq<nat>, i: nat, j: nat)
    requires PeelOrder(slot, n, order, heads, {}) && i < |order| && j < |order| && i != j
    requires slot(order[j], heads[i]) == slot(order[i], heads[i])
    ensures j < i
  {}

  /** Key i0 shares two slots with each of i1 and i2: it cannot come before both, so one of them is peeled
      from the third slot. */
  lemma OneOffTheBase(slot: SlotMap, n: nat, order: seq<nat>, heads: seq<nat>, i0: nat, i1: nat, i2: nat)
    requires PeelOrder(slot, n, order, heads, {}) && i0 < |order| && i1 < |order| && i2 < |order|
    requires i0 != i1 && i0 != i2
    requires slot(order[i0], 1) == slot(order[i1], 1) && slot(order[i0], 2) == slot(order[i1], 2)
    requires slot(order[i0], 0) == slot(order[i2], 0) && slot(order[i0], 2) == slot(order[i2], 2)
    ensures heads[i1] == 0 || heads[i2] == 1
  {}

  // ----- a layout with as few slots as possible

  function Swap(i: nat, j: nat, k: nat): nat { if k == i then j else if k == j then i else k }

  /** The role of a key: key ts[i] has role i, and all keys have different roles. */
  function Role(ts: seq<nat>, k: nat): nat {
    if ts == [] then k
    else
      var j := |ts| - 1;
      Swap(Role(ts[..j], ts[j]), j, Role(ts[..j], k))
  }

  ghost predicate Targets(ts: seq<nat>, n: nat) { |ts| <= n && forall i :: 0 <= i < |ts| ==> ts[i] < n }

  lemma {:induction false} RolesDiffer(ts: seq<nat>, n: nat, j: nat, k: nat)
    requires Targets(ts, n) && j < n && k < n
    ensures Role(ts, j) < n && (Role(ts, j) == Role(ts, k) ==> j == k)
  {
    if ts != [] {
      var front, last := ts[..|ts| - 1], ts[|ts| - 1];
      RolesDiffer(front, n, j, k);
      RolesDiffer(front, n, last, j);
    }
  }

  lemma {:induction false} RoleOfTarget(ts: seq<nat>, n: nat, i: nat)
    requires Targets(ts, n) && i < |ts| && Distinct(ts)
    ensures Role(ts, ts[i]) == i
  {
    var front, last := ts[..|ts| - 1], ts[|ts| - 1];
    if i < |ts| - 1 {
      RoleOfTarget(front, n, i);
      RolesDiffer(front, n, ts[i], last);
    }
  }

  /** Role 0 takes the first slot of each block. Roles 1, 2 and 3 take the second slot of one block
      each; so do, block by block, the later roles with the slot after that. In the other blocks a
      role takes the slot before, except that role 3 takes the second one. */
  function Offset(role: nat, b: nat): nat {
    if role == 0 then 0
    else if role == 3 then 1
    else (role - 1) / 3 + if b == (role - 1) % 3 then 1 else 0
  }

  /** No smaller role has the slot that a role takes for itself. */
  lemma OwnSlot(role: nat, other: nat)
    requires other < role
    ensures Offset(other, (role - 1) % 3) != Offset(role, (role - 1) % 3)
  {}

  ghost predicate LaidOut(slot: SlotMap, n: nat, blockLength: nat, ts: seq<nat>) {
    && Targets(ts, n)
    && forall k: nat, b: nat {:trigger slot(k, b)} :: k < n && b < HASHES ==>
         slot(k, b) == Start(b, blockLength) + Offset(Role(ts, k), b)
  }

  lemma OffsetFits(role: nat, b: nat, n: nat, blockLength: nat)
    requires role < n && n + 2 <= 3 * blockLength
    ensures Offset(role, b) < blockLength
  {}

  lemma LaidOutFits(slot: SlotMap, n: nat, blockLength: nat, ts: seq<nat>)
    requires LaidOut(slot, n, blockLength, ts) && n + 2 <= 3 * blockLength
    ensures InBlocks(slot, n, blockLength)
  {
    forall k: nat, b: nat | k < n && b < HASHES ensures InBlock(slot(k, b), b, blockLength) {
      RolesDiffer(ts, n, k, k);
      OffsetFits(Role(ts, k), b, n, blockLength);
    }
  }

  lemma {:induction false} LargestRole(ts: seq<nat>, keys: set<nat>) returns (k: nat)
    requires keys != {}
    ensures k in keys && forall other :: other in keys ==> Role(ts, other) <= Role(ts, k)
    decreases keys
  {
    hide Role;
    var one :| one in keys;
    var rest := keys - {one};
    k := one;
    if rest != {} {
      var best := LargestRole(ts, rest);
      if Role(ts, best) > Role(ts, one) { k := best; }
      forall other | other in keys ensures Role(ts, other) <= Role(ts, k) {
        if other != one { assert other in rest; }
      }
    } else {
      assert keys == {one};
    }
  }

  /** The block in which a role takes a slot for itself. */
  function OwnBlock(role: nat): nat { if role == 0 then 0 else (role - 1) % 3 }

  lemma OwnBlockExists(role: nat)
    ensures OwnBlock(role) < HASHES
  {}

  lemma OwnSlotOfKey(slot: SlotMap, n: nat, blockLength: nat, ts: seq<nat>, k: nat, other: nat)
    requires LaidOut(slot, n, blockLength, ts) && k < n && other < n && other != k && Role(ts, other) <= Role(ts, k)
    ensures OwnBlock(Role(ts, k)) < HASHES
    ensures slot(other, OwnBlock(Role(ts, k))) != slot(k, OwnBlock(Role(ts, k)))
  {
    hide Role, Offset;
    RolesDiffer(ts, n, other, k);
    OwnSlot(Role(ts, k), Role(ts, other));
  }

  /** The key with the largest role of a set shares its own slot with none of them. */
  lemma LaidOutHasNoCore(slot: SlotMap, n: nat, blockLength: nat, ts: seq<nat>, core: set<nat>)
    requires LaidOut(slot, n, blockLength, ts) && core <= All(n) && core != {}
    ensures !IsCore(slot, core)
  {
    hide Role, Offset, LaidOut, OwnBlock;
    var k := LargestRole(ts, core);
    var b := OwnBlock(Role(ts, k));
    OwnBlockExists(Role(ts, k));
    forall other | other in core && other != k ensures slot(other, b) != slot(k, b) {
      OwnSlotOfKey(slot, n, blockLength, ts, k, other);
    }
    assert b < HASHES && !Shared(slot, core, k, b);
  }

  lemma LaidOutPeels(slot: SlotMap, n: nat, blockLength: nat, ts: seq<nat>)
    requires LaidOut(slot, n, blockLength, ts)
    ensures Peelable(slot, n)
  {
    forall core: set<nat> | core <= All(n) && IsCore(slot, core) ensures core == {} {
      if core != {} { LaidOutHasNoCore(slot, n, blockLength, ts, core); }
    }
  }

  /** The roles that may have a slot of a block. */
  function RolesAt(b: nat, offset: nat): set<nat> {
    {0, 3, 3 * offset + 1, 3 * offset + 2, 3 * offset + 3} + if offset > 0 then {3 * offset - 2 + b} else {}
  }

  lemma RoleAt(role: nat, b: nat)
    requires b < HASHES
    ensures role in RolesAt(b, Offset(role, b))
  {}

  function RolesOf(ts: seq<nat>, keys: set<nat>): set<nat> { set k | k in keys :: Role(ts, k) }

  lemma {:induction false} RolesCounted(ts: seq<nat>, n: nat, keys: set<nat>)
    requires Targets(ts, n) && forall k :: k in keys ==> k < n
    ensures |RolesOf(ts, keys)| == |keys|
    decreases keys
  {
    hide Role;
    if keys != {} {
      var k :| k in keys;
      var rest := keys - {k};
      RolesCounted(ts, n, rest);
      forall other | other in rest ensures Role(ts, other) != Role(ts, k) { RolesDiffer(ts, n, other, k); }
      assert RolesOf(ts, keys) == RolesOf(ts, rest) + {Role(ts, k)};
    }
  }

  lemma FewRolesAt(b: nat, offset: nat)
    ensures |RolesAt(b, offset)| <= 6
  {}

  /** No slot has more than six owners. */
  lemma LaidOutNotOverfull(slot: SlotMap, n: nat, blockLength: nat, ts: seq<nat>)
    requires LaidOut(slot, n, blockLength, ts)
    ensures !Overfull(slot, n)
  {
    hide Role, Offset;
    forall b: nat, s: nat | b < HASHES ensures |Users(slot, All(n), b, s)| <= 6 {
      FewOwners(slot, n, blockLength, ts, b, s);
    }
  }

  lemma FewOwners(slot: SlotMap, n: nat, blockLength: nat, ts: seq<nat>, b: nat, s: nat)
    requires LaidOut(slot, n, blockLength, ts) && b < HASHES
    ensures |Users(slot, All(n), b, s)| <= 6
  {
    hide Role, Offset, RolesAt;
    var users := Users(slot, All(n), b, s);
    RolesCounted(ts, n, users);
    var offset: nat := if s >= Start(b, blockLength) then s - Start(b, blockLength) else 0;
    forall k | k in users ensures Role(ts, k) in RolesAt(b, offset) {
      assert s == Start(b, blockLength) + Offset(Role(ts, k), b);
      RoleAt(Role(ts, k), b);
    }
    SubsetSize(RolesOf(ts, users), RolesAt(b, offset));
    FewRolesAt(b, offset);
  }

  /** The slots that the first four roles share. */
  lemma FirstRolesShare(slot: SlotMap, n: nat, blockLength: nat, ts: seq<nat>)
    requires LaidOut(slot, n, blockLength, ts) && |ts| >= 4 && Distinct(ts)
    ensures slot(ts[0], 1) == slot(ts[1], 1) && slot(ts[0], 2) == slot(ts[1], 2)
    ensures slot(ts[0], 0) == slot(ts[2], 0) && slot(ts[0], 2) == slot(ts[2], 2)
    ensures slot(ts[3], 0) == slot(ts[1], 0) && slot(ts[3], 1) == slot(ts[2], 1)
  {
    hide Role;
    RoleOfTarget(ts, n, 0);
    RoleOfTarget(ts, n, 1);
    RoleOfTarget(ts, n, 2);
    RoleOfTarget(ts, n, 3);
  }
}
