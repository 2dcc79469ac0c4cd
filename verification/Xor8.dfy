/** The Xor8 table: three cells per key whose exclusive-or is the key's ciphertext. */
module Xor8Index {
  import opened Arith
  import opened Tool
  import opened Peeling

  const OFFSET := 2
  const FACTOR_TIMES_100 := 123
  const DIGEST_LENGTH: nat := 32

  type Digest = d: Bytes | |d| == DIGEST_LENGTH witness seq<Byte>(DIGEST_LENGTH, _ => 0)

  function ArrayLength(size: nat): nat { OFFSET + FACTOR_TIMES_100 * size / 100 }

  /** word(key, seed, i) stands for the low 32 bits of the key's 64-bit hash, rotated by 21 * i. */
  type HashWord = (int, int, nat) -> nat

  function Reduce(word: nat, n: nat): nat { word % 0x1_0000_0000 * n / 0x1_0000_0000 }

  lemma ReduceBelow(word: nat, n: nat)
    ensures n > 0 ==> Reduce(word, n) < n
    ensures n == 0 ==> Reduce(word, n) == 0
  {
    var w := word % 0x1_0000_0000;
    if n > 0 {
      MulLe(w + 1, 0x1_0000_0000, n);
      assert (w + 1) * n == w * n + n;
      QuotientBelow(w * n, 0x1_0000_0000, n);
    }
  }

  function GetHash(word: HashWord, key: int, seed: int, index: nat, blockLength: nat): nat {
    Reduce(word(key, seed, index), blockLength) + index * blockLength
  }

  function Slots(word: HashWord, keys: seq<int>, seed: int, blockLength: nat): SlotMap {
    (k: nat, b: nat) => if k < |keys| then GetHash(word, keys[k], seed, b, blockLength) else 0
  }

  lemma SlotsInBlocks(word: HashWord, keys: seq<int>, seed: int, blockLength: nat)
    requires blockLength > 0
    ensures InBlocks(Slots(word, keys, seed, blockLength), |keys|, blockLength)
  {
    forall k: nat, b: nat | k < |keys| && b < HASHES
      ensures InBlock(Slots(word, keys, seed, blockLength)(k, b), b, blockLength)
    {
      ReduceBelow(word(keys[k], seed, b), blockLength);
    }
  }

  /** Where in its block a slot lies is the low half of the key's hash word under the seed, scaled to the
      length of the block. */
  lemma SlotScales(word: HashWord, keys: seq<int>, seed: int, blockLength: nat, k: nat, i: nat)
    requires k < |keys|
    ensures var offset := Slots(word, keys, seed, blockLength)(k, i) - i * blockLength;
            var low := word(keys[k], seed, i) % 0x1_0000_0000;
            offset * 0x1_0000_0000 <= low * blockLength < (offset + 1) * 0x1_0000_0000
  {}

  // ----- answers

  ghost predicate SlotsFit(slot: SlotMap, n: nat, cells: seq<Bytes>) {
    forall k: nat, b: nat {:trigger slot(k, b)} :: k < n && b < HASHES ==> slot(k, b) < |cells|
  }

  /** What a search for key number k reads out of the table. */
  ghost function Lookup(cells: seq<Bytes>, slot: SlotMap, k: nat): Bytes
    requires slot(k, 0) < |cells| && slot(k, 1) < |cells| && slot(k, 2) < |cells|
  {
    XorBytes(cells[slot(k, 0)], XorBytes(cells[slot(k, 1)], cells[slot(k, 2)]))
  }

  ghost predicate Filled(cells: seq<Bytes>, slot: SlotMap, k: nat)
    requires slot(k, 0) < |cells| && slot(k, 1) < |cells| && slot(k, 2) < |cells|
  {
    cells[slot(k, 0)] != [] && cells[slot(k, 1)] != [] && cells[slot(k, 2)] != []
  }

  /** Key k has its answer: all its cells are in use and they combine to a prefix of v. */
  ghost predicate Settled(cells: seq<Bytes>, slot: SlotMap, k: nat, v: Bytes)
    requires slot(k, 0) < |cells| && slot(k, 1) < |cells| && slot(k, 2) < |cells|
  {
    v != [] ==> Filled(cells, slot, k) && Lookup(cells, slot, k) <= v
  }

  /** The shortest non-empty ciphertext, or the length of a random cell if that is shorter. */
  ghost function Shortest(ct: seq<Bytes>): (len: nat)
    ensures 0 < len <= DIGEST_LENGTH
    ensures forall k :: 0 <= k < |ct| && ct[k] != [] ==> len <= |ct[k]|
  {
    if ct == [] then DIGEST_LENGTH
    else
      var rest := Shortest(ct[..|ct| - 1]);
      var last := |ct[|ct| - 1]|;
      if 0 < last < rest then last else rest
  }

  ghost predicate CellsAtLeast(cells: seq<Bytes>, len: nat) {
    forall s :: 0 <= s < |cells| && cells[s] != [] ==> |cells[s]| >= len
  }

  /** What a step of the back-filling may change: the empty cells, and the cell `change`. */
  ghost predicate KeepsOthers(before: seq<Bytes>, after: seq<Bytes>, change: nat) {
    |before| == |after| && forall s :: 0 <= s < |before| && before[s] != [] && s != change ==> after[s] == before[s]
  }

  lemma SettledKept(before: seq<Bytes>, after: seq<Bytes>, change: nat, slot: SlotMap, n: nat, k: nat, v: Bytes)
    requires KeepsOthers(before, after, change) && SlotsFit(slot, n, before) && k < n
    requires change != slot(k, 0) && change != slot(k, 1) && change != slot(k, 2)
    requires Settled(before, slot, k, v)
    ensures Settled(after, slot, k, v)
    ensures v != [] ==> Lookup(after, slot, k) == Lookup(before, slot, k)
  {}

  // ----- back-filling one key

  /** v combined with the cells of key k in the blocks below hi, leaving block found out. */
  ghost function Mask(v: Bytes, cells: seq<Bytes>, slot: SlotMap, k: nat, found: nat, hi: nat): Bytes
    requires hi <= HASHES && forall b: nat :: b < HASHES ==> slot(k, b) < |cells|
  {
    if hi == 0 then v
    else if hi - 1 == found then Mask(v, cells, slot, k, found, hi - 1)
    else XorBytes(Mask(v, cells, slot, k, found, hi - 1), cells[slot(k, hi - 1)])
  }

  lemma MaskKept(v: Bytes, before: seq<Bytes>, after: seq<Bytes>, slot: SlotMap, k: nat, found: nat, hi: nat)
    requires hi <= HASHES && |before| == |after| && forall b: nat :: b < HASHES ==> slot(k, b) < |before|
    requires forall b: nat :: b < hi && b != found ==> after[slot(k, b)] == before[slot(k, b)]
    ensures Mask(v, after, slot, k, found, hi) == Mask(v, before, slot, k, found, hi)
  {}

  /** The first and the last block other than found. */
  function Low(found: nat): nat { if found == 0 then 1 else 0 }
  function High(found: nat): nat { if found == 2 then 1 else 2 }

  /** Putting the mask in the left-out cell settles the key. */
  lemma MaskSettles(v: Bytes, cells: seq<Bytes>, slot: SlotMap, k: nat, found: nat)
    requires found < HASHES && forall b: nat :: b < HASHES ==> slot(k, b) < |cells|
    requires slot(k, 0) != slot(k, 1) && slot(k, 0) != slot(k, 2) && slot(k, 1) != slot(k, 2)
    requires cells[slot(k, Low(found))] != [] && cells[slot(k, High(found))] != []
    ensures var m := Mask(v, cells, slot, k, found, HASHES);
            var after := cells[slot(k, found) := m];
            && Settled(after, slot, k, v)
            && |m| == Min(|v|, Min(|cells[slot(k, Low(found))]|, |cells[slot(k, High(found))]|))
            && Lookup(after, slot, k) == v[..|m|]
  {
    var p, q := Low(found), High(found);
    var a, c := cells[slot(k, p)], cells[slot(k, q)];
    var m := Mask(v, cells, slot, k, found, HASHES);
    assert Mask(v, cells, slot, k, found, 1) == if found == 0 then v else XorBytes(v, cells[slot(k, 0)]);
    assert Mask(v, cells, slot, k, found, 2) ==
           if found == 2 then XorBytes(XorBytes(v, cells[slot(k, 0)]), cells[slot(k, 1)]) else XorBytes(v, a);
    assert m == XorBytes(XorBytes(v, a), c);
    XorRestores(v, a, c, m);
  }

  /** The cells of key k in the blocks below hi, except that in block found, filled where they were
      empty; and how many random digests were drawn by then. */
  ghost function FilledFor(cells: seq<Bytes>, slot: SlotMap, k: nat, found: nat, filler: nat -> Digest, drawn: nat,
                           hi: nat)
    : (r: (seq<Bytes>, nat))
    requires hi <= HASHES && forall b: nat :: b < HASHES ==> slot(k, b) < |cells|
    ensures |r.0| == |cells|
  {
    if hi == 0 then (cells, drawn)
    else
      var (before, next) := FilledFor(cells, slot, k, found, filler, drawn, hi - 1);
      var h := slot(k, hi - 1);
      if hi - 1 != found && before[h] == [] then (before[h := filler(next)], next + 1) else (before, next)
  }

  lemma {:induction false} FilledForExact(cells: seq<Bytes>, slot: SlotMap, k: nat, found: nat, filler: nat -> Digest,
                                          drawn: nat, hi: nat)
    requires hi <= HASHES && found < HASHES && forall b: nat :: b < HASHES ==> slot(k, b) < |cells|
    requires slot(k, 0) != slot(k, 1) && slot(k, 0) != slot(k, 2) && slot(k, 1) != slot(k, 2)
    ensures var after := FilledFor(cells, slot, k, found, filler, drawn, hi).0;
            && KeepsOthers(cells, after, slot(k, found)) && after[slot(k, found)] == cells[slot(k, found)]
            && (forall b: nat :: b < hi && b != found ==> after[slot(k, b)] != [])
            && forall s :: 0 <= s < |cells| && cells[s] == [] && after[s] != [] ==> |after[s]| == DIGEST_LENGTH
    decreases hi
  {
    if hi > 0 { FilledForExact(cells, slot, k, found, filler, drawn, hi - 1); }
  }

  /** The cells after key k got its answer v, stored in its cell in block found. */
  ghost function AfterKey(cells: seq<Bytes>, slot: SlotMap, k: nat, found: nat, v: Bytes, filler: nat -> Digest,
                          drawn: nat)
    : (r: (seq<Bytes>, nat))
    requires found < HASHES && forall b: nat :: b < HASHES ==> slot(k, b) < |cells|
    ensures |r.0| == |cells|
  {
    var (filled, next) := FilledFor(cells, slot, k, found, filler, drawn, HASHES);
    (filled[slot(k, found) := Mask(v, filled, slot, k, found, HASHES)], next)
  }

  /** One key is answered, with no more than its ciphertext in its own cell; of the other cells only
      empty ones are written. */
  lemma AfterKeyExact(cells: seq<Bytes>, slot: SlotMap, k: nat, found: nat, v: Bytes, filler: nat -> Digest, drawn: nat)
    requires found < HASHES && forall b: nat :: b < HASHES ==> slot(k, b) < |cells|
    requires slot(k, 0) != slot(k, 1) && slot(k, 0) != slot(k, 2) && slot(k, 1) != slot(k, 2)
    ensures var after := AfterKey(cells, slot, k, found, v, filler, drawn).0;
            && KeepsOthers(cells, after, slot(k, found)) && Settled(after, slot, k, v)
            && |after[slot(k, found)]| <= |v|
            && (cells[slot(k, Low(found))] == [] ==> |Lookup(after, slot, k)| <= DIGEST_LENGTH)
    ensures forall len: nat {:trigger CellsAtLeast(cells, len)} ::
              len <= DIGEST_LENGTH && (v != [] ==> len <= |v|) && CellsAtLeast(cells, len) ==>
                CellsAtLeast(AfterKey(cells, slot, k, found, v, filler, drawn).0, len)
  {
    hide Settled, XorBytes, Mask, FilledFor;
    var filled := FilledFor(cells, slot, k, found, filler, drawn, HASHES).0;
    FilledForExact(cells, slot, k, found, filler, drawn, HASHES);
    MaskSettles(v, filled, slot, k, found);
  }

  /** Gives key k its answer: fills its empty cells other than the one in block found, and
      stores the ciphertext combined with those two in that cell. */
  method AssignKey(cells: array<Bytes>, slot: SlotMap, k: nat, found: nat, v: Bytes, filler: nat -> Digest, drawn: nat)
    returns (drawn': nat)
    requires found < HASHES && forall b: nat :: b < HASHES ==> slot(k, b) < cells.Length
    requires slot(k, 0) != slot(k, 1) && slot(k, 0) != slot(k, 2) && slot(k, 1) != slot(k, 2)
    modifies cells
    ensures (cells[..], drawn') == AfterKey(old(cells[..]), slot, k, found, v, filler, drawn)
  {
    hide XorBytes, XorByte, NatXor;
    var result, change := v, 0;
    ghost var was := cells[..];
    drawn' := drawn;
    for hi := 0 to HASHES
      invariant (cells[..], drawn') == FilledFor(was, slot, k, found, filler, drawn, hi)
      invariant result == Mask(v, cells[..], slot, k, found, hi)
      invariant hi > found ==> change == slot(k, found)
    {
      var h := slot(k, hi);
      if found == hi {
        change := h;
      } else {
        if cells[h] == [] {
          ghost var before := cells[..];
          cells[h] := filler(drawn');
          drawn' := drawn' + 1;
          MaskKept(v, before, cells[..], slot, k, found, hi);
        }
        result := Xor(result, cells[h]);
      }
    }
    cells[change] := result;
  }

  // ----- back-filling all keys

  /** A slot a key was peeled from is no slot of a key that is answered before it. */
  lemma ChangeSlotFree(slot: SlotMap, n: nat, blockLength: nat, order: seq<nat>, heads: seq<nat>, rem: set<nat>,
                       i: nat, j: nat)
    requires InBlocks(slot, n, blockLength) && PeelOrder(slot, n, order, heads, rem) && i < j < |order|
    ensures var change := slot(order[i], heads[i]);
            change != slot(order[j], 0) && change != slot(order[j], 1) && change != slot(order[j], 2)
  {
    var b := heads[i];
    assert InBlock(slot(order[i], b), b, blockLength);
    forall c: nat | c < HASHES ensures slot(order[j], c) != slot(order[i], b) {
      assert InBlock(slot(order[j], c), c, blockLength);
    }
  }

  ghost predicate SettledFrom(cells: seq<Bytes>, slot: SlotMap, n: nat, order: seq<nat>, ct: seq<Bytes>, i: nat)
    requires SlotsFit(slot, n, cells) && n <= |ct| && forall j :: 0 <= j < |order| ==> order[j] < n
  {
    forall j {:trigger order[j]} :: i <= j < |order| ==> Settled(cells, slot, order[j], ct[order[j]])
  }

  /** Answering key order[i] keeps every answer already given. */
  lemma SettledFromStep(before: seq<Bytes>, after: seq<Bytes>, slot: SlotMap, n: nat, blockLength: nat, order: seq<nat>,
                        heads: seq<nat>, rem: set<nat>, ct: seq<Bytes>, i: nat)
    requires SlotsFit(slot, n, before) && n <= |ct| && InBlocks(slot, n, blockLength)
    requires PeelOrder(slot, n, order, heads, rem) && i < |order|
    requires KeepsOthers(before, after, slot(order[i], heads[i]))
    requires Settled(after, slot, order[i], ct[order[i]])
    requires SettledFrom(before, slot, n, order, ct, i + 1)
    ensures SettledFrom(after, slot, n, order, ct, i)
    ensures forall j :: i < j < |order| && ct[order[j]] != [] ==>
              Lookup(after, slot, order[j]) == Lookup(before, slot, order[j])
  {
    forall j | i < j < |order|
      ensures Settled(after, slot, order[j], ct[order[j]])
      ensures ct[order[j]] != [] ==> Lookup(after, slot, order[j]) == Lookup(before, slot, order[j])
    {
      ChangeSlotFree(slot, n, blockLength, order, heads, rem, i, j);
      SettledKept(before, after, slot(order[i], heads[i]), slot, n, order[j], ct[order[j]]);
    }
  }

  /** Key k reads at most a digest's length. */
  ghost predicate Capped(cells: seq<Bytes>, slot: SlotMap, n: nat, k: nat)
    requires SlotsFit(slot, n, cells) && k < n
  {
    |Lookup(cells, slot, k)| <= DIGEST_LENGTH
  }

  /** The cells after the keys from the last one peeled down to number i got their answers. */
  ghost function AfterKeys(cells: seq<Bytes>, slot: SlotMap, n: nat, order: seq<nat>, heads: seq<nat>, ct: seq<Bytes>,
                           filler: nat -> Digest, i: nat): (r: (seq<Bytes>, nat))
    requires SlotsFit(slot, n, cells) && n <= |ct| && i <= |order| == |heads|
    requires forall j :: 0 <= j < |order| ==> order[j] < n && heads[j] < HASHES
    ensures |r.0| == |cells| && SlotsFit(slot, n, r.0)
    decreases |order| - i
  {
    if i == |order| then (cells, 0)
    else
      var (before, drawn) := AfterKeys(cells, slot, n, order, heads, ct, filler, i + 1);
      AfterKey(before, slot, order[i], heads[i], ct[order[i]], filler, drawn)
  }

  /** The keys answered so far are settled, no cell in use is shorter than `len`, and the first key
      answered, if it has a ciphertext, reads no more than a digest's length. */
  ghost predicate AnsweredFrom(cells: seq<Bytes>, slot: SlotMap, n: nat, order: seq<nat>, ct: seq<Bytes>, len: nat,
                               i: nat)
    requires SlotsFit(slot, n, cells) && n <= |ct| && forall j :: 0 <= j < |order| ==> order[j] < n
  {
    && SettledFrom(cells, slot, n, order, ct, i) && CellsAtLeast(cells, len)
    && (i < |order| && ct[order[|order| - 1]] != [] ==> Capped(cells, slot, n, order[|order| - 1]))
  }

  lemma {:induction false} AfterKeysExact(cells: seq<Bytes>, slot: SlotMap, n: nat, blockLength: nat, order: seq<nat>,
                                          heads: seq<nat>,
                                          rem: set<nat>, ct: seq<Bytes>, filler: nat -> Digest, len: nat, i: nat)
    requires SlotsFit(slot, n, cells) && n <= |ct| && InBlocks(slot, n, blockLength) && i <= |order|
    requires PeelOrder(slot, n, order, heads, rem) && forall s :: 0 <= s < |cells| ==> cells[s] == []
    requires len <= DIGEST_LENGTH && forall k :: 0 <= k < |ct| && ct[k] != [] ==> len <= |ct[k]|
    ensures AnsweredFrom(AfterKeys(cells, slot, n, order, heads, ct, filler, i).0, slot, n, order, ct, len, i)
    decreases |order| - i
  {
    hide AfterKey, InBlocks, Settled, Lookup, KeepsOthers;
    if i < |order| {
      AfterKeysExact(cells, slot, n, blockLength, order, heads, rem, ct, filler, len, i + 1);
      KeyAnswered(cells, slot, n, blockLength, order, heads, rem, ct, filler, len, i);
    }
  }

  lemma KeyAnswered(cells: seq<Bytes>, slot: SlotMap, n: nat, blockLength: nat, order: seq<nat>, heads: seq<nat>,
                    rem: set<nat>, ct: seq<Bytes>, filler: nat -> Digest, len: nat, i: nat)
    requires SlotsFit(slot, n, cells) && n <= |ct| && InBlocks(slot, n, blockLength) && i < |order|
    requires PeelOrder(slot, n, order, heads, rem) && forall s :: 0 <= s < |cells| ==> cells[s] == []
    requires len <= DIGEST_LENGTH && forall k :: 0 <= k < |ct| && ct[k] != [] ==> len <= |ct[k]|
    requires AnsweredFrom(AfterKeys(cells, slot, n, order, heads, ct, filler, i + 1).0, slot, n, order, ct, len, i + 1)
    ensures AnsweredFrom(AfterKeys(cells, slot, n, order, heads, ct, filler, i).0, slot, n, order, ct, len, i)
  {
    hide AfterKey, InBlocks, Settled, Lookup, KeepsOthers;
    var (before, drawn) := AfterKeys(cells, slot, n, order, heads, ct, filler, i + 1);
    var after := AfterKeys(cells, slot, n, order, heads, ct, filler, i).0;
    OwnSlotsDistinct(slot, n, blockLength, order[i]);
    AfterKeyExact(before, slot, order[i], heads[i], ct[order[i]], filler, drawn);
    SettledFromStep(before, after, slot, n, blockLength, order, heads, rem, ct, i);
  }

  /** What the cell of an answered key holds stays there: no key answered later changes it. */
  lemma {:induction false} AnswerStays(cells: seq<Bytes>, slot: SlotMap, n: nat, blockLength: nat, order: seq<nat>,
                                       heads: seq<nat>,
                                       rem: set<nat>, ct: seq<Bytes>, filler: nat -> Digest, i: nat, j: nat)
    requires SlotsFit(slot, n, cells) && n <= |ct| && InBlocks(slot, n, blockLength) && i <= j < |order|
    requires PeelOrder(slot, n, order, heads, rem) && forall s :: 0 <= s < |cells| ==> cells[s] == []
    requires ct[order[j]] != []
    ensures var s := slot(order[j], heads[j]);
            0 < |AfterKeys(cells, slot, n, order, heads, ct, filler, i).0[s]| <= |ct[order[j]]|
    decreases j - i
  {
    hide AfterKey, InBlocks, Lookup;
    var (before, drawn) := AfterKeys(cells, slot, n, order, heads, ct, filler, i + 1);
    OwnSlotsDistinct(slot, n, blockLength, order[i]);
    AfterKeyExact(before, slot, order[i], heads[i], ct[order[i]], filler, drawn);
    if i < j {
      AnswerStays(cells, slot, n, blockLength, order, heads, rem, ct, filler, i + 1, j);
      ChangeSlotFree(slot, n, blockLength, order, heads, rem, i, j);
    }
  }

  /** Answers the keys in the reverse of the order they were peeled in. */
  method Assign(cells: array<Bytes>, slot: SlotMap, n: nat, ghost blockLength: nat, reverseOrder: array<nat>,
                reverseH: array<nat>,
                pos: nat, ghost rem: set<nat>, ct: seq<Bytes>, filler: nat -> Digest)
    returns (drawn: nat)
    requires SlotsFit(slot, n, cells[..]) && n <= |ct| && InBlocks(slot, n, blockLength)
    requires pos <= reverseOrder.Length && pos <= reverseH.Length
    requires PeelOrder(slot, n, reverseOrder[..pos], reverseH[..pos], rem)
    modifies cells
    ensures (cells[..], drawn) ==
            AfterKeys(old(cells[..]), slot, n, reverseOrder[..pos], reverseH[..pos], ct, filler, 0)
  {
    hide AfterKey, InBlocks;
    ghost var was, order, heads := cells[..], reverseOrder[..pos], reverseH[..pos];
    drawn := 0;
    for i := pos downto 0
      invariant (cells[..], drawn) == AfterKeys(was, slot, n, order, heads, ct, filler, i)
    {
      var k, found := reverseOrder[i], reverseH[i];
      assert order[i] == k && heads[i] == found;
      OwnSlotsDistinct(slot, n, blockLength, k);
      drawn := AssignKey(cells, slot, k, found, ct[k], filler, drawn);
    }
  }

  lemma OwnSlotsDistinct(slot: SlotMap, n: nat, blockLength: nat, k: nat)
    requires InBlocks(slot, n, blockLength) && k < n
    ensures slot(k, 0) != slot(k, 1) && slot(k, 0) != slot(k, 2) && slot(k, 1) != slot(k, 2)
  {
    assert InBlock(slot(k, 0), 0, blockLength) && InBlock(slot(k, 1), 1, blockLength)
           && InBlock(slot(k, 2), 2, blockLength);
  }

  /** The first s cells with random bytes wherever they were empty, and how many digests were drawn. */
  ghost function FilledUp(cells: seq<Bytes>, filler: nat -> Digest, drawn: nat, s: nat): (r: (seq<Bytes>, nat))
    requires s <= |cells|
    ensures |r.0| == |cells|
  {
    if s == 0 then (cells, drawn)
    else
      var (before, next) := FilledUp(cells, filler, drawn, s - 1);
      if before[s - 1] == [] then (before[s - 1 := filler(next)], next + 1) else (before, next)
  }

  lemma {:induction false} FilledUpExact(cells: seq<Bytes>, filler: nat -> Digest, drawn: nat, s: nat)
    requires s <= |cells|
    ensures var after := FilledUp(cells, filler, drawn, s).0;
            forall t :: 0 <= t < |cells| ==>
                if t < s && cells[t] == [] then |after[t]| == DIGEST_LENGTH else after[t] == cells[t]
  {
    if s > 0 { FilledUpExact(cells, filler, drawn, s - 1); }
  }

  /** Puts random bytes in every cell that is still empty. */
  method FillRest(cells: array<Bytes>, filler: nat -> Digest, drawn: nat)
    modifies cells
    ensures cells[..] == FilledUp(old(cells[..]), filler, drawn, cells.Length).0
    ensures forall s :: 0 <= s < cells.Length ==>
              if old(cells[s]) == [] then |cells[s]| == DIGEST_LENGTH else cells[s] == old(cells[s])
  {
    var next := drawn;
    ghost var was := cells[..];
    for s := 0 to cells.Length
      invariant (cells[..], next) == FilledUp(was, filler, drawn, s)
    {
      if cells[s] == [] {
        cells[s] := filler(next);
        next := next + 1;
      }
    }
    FilledUpExact(was, filler, drawn, cells.Length);
  }

  /** The finished table: no search comes back empty or shorter than `len`; every key with a
      ciphertext reads a prefix of it; and some key, if there is any, reads no more than a digest's length. */
  ghost predicate Answers(cells: seq<Bytes>, slot: SlotMap, n: nat, ct: seq<Bytes>, len: nat)
    requires SlotsFit(slot, n, cells) && n <= |ct|
  {
    && (forall k: nat {:trigger ct[k]} :: k < n ==>
          && Lookup(cells, slot, k) != [] && |Lookup(cells, slot, k)| >= len
          && (ct[k] != [] ==> Lookup(cells, slot, k) <= ct[k]))
    && (n > 0 && (forall k :: 0 <= k < n ==> ct[k] != []) ==>
        exists k: nat {:trigger Capped(cells, slot, n, k)} :: k < n && Capped(cells, slot, n, k))
  }

  lemma AnswersAfterFill(before: seq<Bytes>, after: seq<Bytes>, slot: SlotMap, n: nat, order: seq<nat>,
                         heads: seq<nat>, ct: seq<Bytes>, len: nat)
    requires SlotsFit(slot, n, before) && n <= |ct| && |before| == |after| && 0 < len <= DIGEST_LENGTH
    requires Progress(slot, n, order, heads, {}) && SettledFrom(before, slot, n, order, ct, 0)
    requires CellsAtLeast(before, len)
    requires n > 0 && ct[order[n - 1]] != [] ==> Capped(before, slot, n, order[n - 1])
    requires forall s :: 0 <= s < |before| ==>
               if before[s] == [] then |after[s]| == DIGEST_LENGTH else after[s] == before[s]
    ensures Answers(after, slot, n, ct, len)
  {
    forall k: nat | k < n
      ensures Lookup(after, slot, k) != [] && |Lookup(after, slot, k)| >= len
      ensures ct[k] != [] ==> Lookup(after, slot, k) <= ct[k] && Lookup(after, slot, k) == Lookup(before, slot, k)
    {
      assert k !in {} && k in order;
      var j :| 0 <= j < |order| && order[j] == k;
      assert Settled(before, slot, k, ct[k]);
    }
    if n > 0 {
      assert |order| == n;
      assert ct[order[n - 1]] != [] ==> Capped(after, slot, n, order[n - 1]);
    }
  }

  /** The table that back-filling gives after a complete peel. */
  ghost function TableOf(slot: SlotMap, n: nat, order: seq<nat>, heads: seq<nat>, ct: seq<Bytes>,
                         filler: nat -> Digest, size: nat)
    : (cells: seq<Bytes>)
    requires Progress(slot, n, order, heads, {}) && n <= |ct|
    requires forall k: nat, b: nat {:trigger slot(k, b)} :: k < n && b < HASHES ==> slot(k, b) < size
    ensures |cells| == size && SlotsFit(slot, n, cells)
  {
    var empty: seq<Bytes> := seq(size, _ => []);
    var (filled, drawn) := AfterKeys(empty, slot, n, order, heads, ct, filler, 0);
    FilledUp(filled, filler, drawn, size).0
  }

  /** The cells are what back-filling gives after some complete peel, with some filler. */
  ghost predicate FromPeel(slot: SlotMap, n: nat, ct: seq<Bytes>, cells: seq<Bytes>)
    requires SlotsFit(slot, n, cells) && n <= |ct|
  {
    exists order, heads, filler: nat -> Digest ::
      Progress(slot, n, order, heads, {}) && cells == TableOf(slot, n, order, heads, ct, filler, |cells|)
  }

  lemma TableAnswers(slot: SlotMap, n: nat, blockLength: nat, order: seq<nat>, heads: seq<nat>, ct: seq<Bytes>,
                     filler: nat -> Digest, size: nat)
    requires Progress(slot, n, order, heads, {}) && n <= |ct| && InBlocks(slot, n, blockLength)
    requires forall k: nat, b: nat {:trigger slot(k, b)} :: k < n && b < HASHES ==> slot(k, b) < size
    ensures Answers(TableOf(slot, n, order, heads, ct, filler, size), slot, n, ct, Shortest(ct))
  {
    hide InBlocks, AfterKeys, FilledUp, Answers, SettledFrom, CellsAtLeast, Capped, IsCore, All, Shortest;
    var empty: seq<Bytes> := seq(size, _ => []);
    var (filled, drawn) := AfterKeys(empty, slot, n, order, heads, ct, filler, 0);
    AfterKeysExact(empty, slot, n, blockLength, order, heads, {}, ct, filler, Shortest(ct), 0);
    FilledUpExact(filled, filler, drawn, size);
    AnswersAfterFill(filled, TableOf(slot, n, order, heads, ct, filler, size), slot, n, order, heads, ct, Shortest(ct));
  }

  /** A key that shares the cell in which another key's answer is stored reads no more than that
      key's ciphertext is long. */
  lemma SharedCellCuts(slot: SlotMap, n: nat, blockLength: nat, order: seq<nat>, heads: seq<nat>, ct: seq<Bytes>,
                       filler: nat -> Digest, size: nat, j: nat, b: nat)
    requires Progress(slot, n, order, heads, {}) && n <= |ct| && InBlocks(slot, n, blockLength)
    requires forall k: nat, b: nat {:trigger slot(k, b)} :: k < n && b < HASHES ==> slot(k, b) < size
    requires j < n && b < n && ct[order[j]] != [] && slot(b, heads[j]) == slot(order[j], heads[j])
    ensures |Lookup(TableOf(slot, n, order, heads, ct, filler, size), slot, b)| <= |ct[order[j]]|
  {
    hide InBlocks, AfterKeys, FilledUp, XorByte;
    var empty: seq<Bytes> := seq(size, _ => []);
    var (filled, drawn) := AfterKeys(empty, slot, n, order, heads, ct, filler, 0);
    AnswerStays(empty, slot, n, blockLength, order, heads, {}, ct, filler, 0, j);
    FilledUpExact(filled, filler, drawn, size);
    var table, s := TableOf(slot, n, order, heads, ct, filler, size), slot(order[j], heads[j]);
    assert |table[s]| <= |ct[order[j]]|;
    assert heads[j] == 0 || heads[j] == 1 || heads[j] == 2;
  }

  /** With ciphertexts of one common length, every search is exact if and only if that length
      is between one byte and the length of a random cell. */
  lemma ExactLengths(cells: seq<Bytes>, slot: SlotMap, n: nat, ct: seq<Bytes>, length: nat)
    requires 0 < n == |ct| && SlotsFit(slot, n, cells) && Answers(cells, slot, n, ct, Shortest(ct))
    requires forall k :: 0 <= k < n ==> |ct[k]| == length
    ensures (forall k: nat :: k < n ==> Lookup(cells, slot, k) == ct[k]) <==> 1 <= length <= DIGEST_LENGTH
  {
    if 1 <= length <= DIGEST_LENGTH {
      ShortestOfEqual(ct, length);
      forall k: nat | k < n ensures Lookup(cells, slot, k) == ct[k] {
        assert Lookup(cells, slot, k) <= ct[k];
      }
    } else if length == 0 {
      assert ct[0] == [];
    } else {
      var k: nat :| k < n && Capped(cells, slot, n, k);
      assert Capped(cells, slot, n, k);
      assert |ct[k]| == length;
    }
  }

  lemma {:induction false} ShortestOfEqual(ct: seq<Bytes>, length: nat)
    requires 1 <= length <= DIGEST_LENGTH && forall k :: 0 <= k < |ct| ==> |ct[k]| == length
    ensures Shortest(ct) >= length
  {
    if ct != [] { ShortestOfEqual(ct[..|ct| - 1], length); }
  }

  /** A key stored with the empty ciphertext never reads it back; a key stored with a non-empty
      one no longer than any other non-empty one, or than a random cell, always does. */
  lemma ExactKeys(cells: seq<Bytes>, slot: SlotMap, n: nat, ct: seq<Bytes>, k: nat)
    requires k < n == |ct| && SlotsFit(slot, n, cells) && Answers(cells, slot, n, ct, Shortest(ct))
    ensures ct[k] == [] ==> Lookup(cells, slot, k) != ct[k]
    ensures 0 < |ct[k]| <= Shortest(ct) ==> Lookup(cells, slot, k) == ct[k]
  {
    assert ct[k] != [] ==> Lookup(cells, slot, k) <= ct[k];
  }

  // ----- the table

  datatype Outcome = Built | Retry | HashCollision | UnexpectedCount | SeedsExhausted

  /** Under this slot map the attempt is given up and another seed is tried. */
  ghost predicate Stuck(slot: SlotMap, n: nat) { !Overfull(slot, n) && !Peelable(slot, n) }

  lemma BlockLengthPositive(n: nat)
    ensures n > 0 ==> ArrayLength(n) / HASHES > 0
    ensures n <= ArrayLength(n)
  {}

  /** One pass of the seed loop, on fresh counters and stacks. */
  method Attempt(slot: SlotMap, n: nat, arrayLength: nat, blockLength: nat, reverseOrder: array<nat>,
                 reverseH: array<nat>)
    returns (outcome: Outcome)
    requires InBlocks(slot, n, blockLength) && arrayLength >= 3 * blockLength
    requires reverseOrder != reverseH && reverseOrder.Length == reverseH.Length >= n
    modifies reverseOrder, reverseH
    ensures outcome == if Overfull(slot, n) then HashCollision else if Peelable(slot, n) then Built else Retry
    ensures outcome == Built ==> Progress(slot, n, reverseOrder[..n], reverseH[..n], {})
  {
    hide Overfull, Peelable, InBlocks, IsCore, AllCounted, StacksOk, PeelOrder, All, Singles, Users, Progress;
    var t2count, t2 := new int[arrayLength](_ => 0), new nat[arrayLength](_ => 0);
    var ok := CountSlots(slot, n, blockLength, t2count, t2);
    if !ok { return HashCollision; }
    ghost var counted := t2count[..];
    var alone, alonePos := AllocateStacks(blockLength);
    assert Apart(alone, alonePos, t2, blockLength);
    FindAlone(blockLength, t2count, t2, alone, alonePos);
    assert t2count[..] == counted;
    assert Ready(slot, n, blockLength, t2count, t2, alone, alonePos, All(n));
    var pos, unexpectedCount, rem := Peel(slot, n, blockLength, t2count, t2, alone, alonePos, reverseOrder, reverseH);
    if unexpectedCount { return Outcome.UnexpectedCount; }
    outcome := if pos == n then Built else Retry;
  }

  method AllocateStacks(blockLength: nat) returns (alone: seq<array<nat>>, alonePos: array<nat>)
    ensures |alone| == HASHES && alonePos.Length == HASHES && alonePos !in alone
    ensures fresh(alonePos) && fresh(alone[0]) && fresh(alone[1]) && fresh(alone[2])
    ensures alone[0] != alone[1] && alone[0] != alone[2] && alone[1] != alone[2]
    ensures alone[0].Length == alone[1].Length == alone[2].Length == blockLength
    ensures alonePos[0] == alonePos[1] == alonePos[2] == 0
  {
    var alone0, alone1, alone2 := new nat[blockLength](_ => 0), new nat[blockLength](_ => 0),
        new nat[blockLength](_ => 0);
    alone := [alone0, alone1, alone2];
    alonePos := new nat[HASHES](_ => 0);
  }

  /** Seed number t is the first one that is not simply given up. */
  ghost predicate Decides(word: HashWord, keys: seq<int>, blockLength: nat, seeds: seq<int>, t: nat)
    requires t < |seeds|
  {
    && (forall u :: 0 <= u < t ==> Stuck(Slots(word, keys, seeds[u], blockLength), |keys|))
    && !Stuck(Slots(word, keys, seeds[t], blockLength), |keys|)
  }

  /** The seed loop: tries the seeds in turn until one overfills a slot or leaves no core. */
  method TrySeeds(word: HashWord, keys: seq<int>, arrayLength: nat, blockLength: nat, seeds: seq<int>,
                  reverseOrder: array<nat>, reverseH: array<nat>)
    returns (outcome: Outcome, seed: int, ghost last: nat)
    requires |keys| > 0 ==> blockLength > 0
    requires arrayLength >= 3 * blockLength
    requires reverseOrder != reverseH && reverseOrder.Length == reverseH.Length >= |keys|
    modifies reverseOrder, reverseH
    ensures outcome in {Built, HashCollision, SeedsExhausted}
    ensures outcome == SeedsExhausted ==> forall t :: 0 <= t < |seeds| ==>
              Stuck(Slots(word, keys, seeds[t], blockLength), |keys|)
    ensures outcome != SeedsExhausted ==>
              last < |seeds| && seeds[last] == seed && Decides(word, keys, blockLength, seeds, last)
    ensures outcome != SeedsExhausted ==>
              Overfull(Slots(word, keys, seed, blockLength), |keys|) == (outcome == HashCollision)
    ensures outcome == Built ==>
              Progress(Slots(word, keys, seed, blockLength), |keys|, reverseOrder[..|keys|], reverseH[..|keys|], {})
  {
    seed, last := 0, 0;
    for t := 0 to |seeds|
      invariant forall u :: 0 <= u < t ==> Stuck(Slots(word, keys, seeds[u], blockLength), |keys|)
    {
      seed, last := seeds[t], t;
      if |keys| > 0 { SlotsInBlocks(word, keys, seed, blockLength); }
      outcome := Attempt(Slots(word, keys, seed, blockLength), |keys|, arrayLength, blockLength, reverseOrder,
                         reverseH);
      if outcome != Retry { return; }
    }
    outcome := SeedsExhausted;
  }

  lemma PeelTable(slot: SlotMap, n: nat, blockLength: nat, order: seq<nat>, heads: seq<nat>, ct: seq<Bytes>,
                  filler: nat -> Digest, cells: seq<Bytes>)
    requires Progress(slot, n, order, heads, {}) && n == |ct| && InBlocks(slot, n, blockLength)
    requires SlotsFit(slot, n, cells)
    requires var (filled, drawn) := AfterKeys(seq(|cells|, _ => []), slot, n, order, heads, ct, filler, 0);
             cells == FilledUp(filled, filler, drawn, |cells|).0
    ensures Answers(cells, slot, n, ct, Shortest(ct)) && FromPeel(slot, n, ct, cells)
  {
    hide AfterKeys, FilledUp, Answers, Progress, InBlocks;
    TableAnswers(slot, n, blockLength, order, heads, ct, filler, |cells|);
    assert cells == TableOf(slot, n, order, heads, ct, filler, |cells|);
  }

  /** Back-fills the table after a complete peel. */
  method FillTable(cells: array<Bytes>, slot: SlotMap, n: nat, ghost blockLength: nat, ct: seq<Bytes>,
                   filler: nat -> Digest, reverseOrder: array<nat>, reverseH: array<nat>)
    requires InBlocks(slot, n, blockLength) && cells.Length >= 3 * blockLength && n == |ct|
    requires reverseOrder.Length >= n && reverseH.Length >= n
    requires Progress(slot, n, reverseOrder[..n], reverseH[..n], {})
    requires forall s :: 0 <= s < cells.Length ==> cells[s] == []
    modifies cells
    ensures SlotsFit(slot, n, cells[..])
    ensures Answers(cells[..], slot, n, ct, Shortest(ct)) && FromPeel(slot, n, ct, cells[..])
  {
    AllFit(slot, n, blockLength, cells[..]);
    ghost var order, heads := reverseOrder[..n], reverseH[..n];
    ghost var empty: seq<Bytes> := seq(cells.Length, _ => []);
    assert cells[..] == empty;
    var drawn := Assign(cells, slot, n, blockLength, reverseOrder, reverseH, n, {}, ct, filler);
    FillRest(cells, filler, drawn);
    PeelTable(slot, n, blockLength, order, heads, ct, filler, cells[..]);
  }

  /** How a construction ends: the outcome is that of the first seed that is not given up. */
  ghost predicate Decided(word: HashWord, keys: seq<int>, blockLength: nat, seeds: seq<int>, outcome: Outcome,
                          seed: int) {
    match outcome
    case SeedsExhausted => forall t :: 0 <= t < |seeds| ==> Stuck(Slots(word, keys, seeds[t], blockLength), |keys|)
    case HashCollision =>
      && (exists t :: 0 <= t < |seeds| && seeds[t] == seed && Decides(word, keys, blockLength, seeds, t))
      && Overfull(Slots(word, keys, seed, blockLength), |keys|)
    case Built =>
      && (exists t :: 0 <= t < |seeds| && seeds[t] == seed && Decides(word, keys, blockLength, seeds, t))
      && !Overfull(Slots(word, keys, seed, blockLength), |keys|)
    case _ => false
  }

  /** The cells answer every key under the chosen seed, and come from a complete peel. */
  ghost predicate Complete(word: HashWord, keys: seq<int>, ct: seq<Bytes>, blockLength: nat, seed: int,
                           cells: seq<Bytes>) {
    var slot := Slots(word, keys, seed, blockLength);
    && |keys| == |ct| && SlotsFit(slot, |keys|, cells) && Answers(cells, slot, |keys|, ct, Shortest(ct))
    && FromPeel(slot, |keys|, ct, cells)
  }

  method Construct(word: HashWord, keys: seq<int>, ct: seq<Bytes>, arrayLength: nat, blockLength: nat, seeds: seq<int>,
                   filler: nat -> Digest, cells: array<Bytes>)
    returns (outcome: Outcome, seed: int)
    requires |keys| == |ct| <= arrayLength == cells.Length && arrayLength >= 3 * blockLength
    requires |keys| > 0 ==> blockLength > 0
    requires forall s :: 0 <= s < cells.Length ==> cells[s] == []
    modifies cells
    ensures Decided(word, keys, blockLength, seeds, outcome, seed)
    ensures outcome == Built ==> Complete(word, keys, ct, blockLength, seed, cells[..])
  {
    var reverseOrder, reverseH := new nat[arrayLength](_ => 0), new nat[arrayLength](_ => 0);
    ghost var last;
    outcome, seed, last := TrySeeds(word, keys, arrayLength, blockLength, seeds, reverseOrder, reverseH);
    if outcome == Built {
      if |keys| > 0 { SlotsInBlocks(word, keys, seed, blockLength); }
      FillTable(cells, Slots(word, keys, seed, blockLength), |keys|, blockLength, ct, filler, reverseOrder, reverseH);
    }
  }

  class Xor8 {
    const word: HashWord
    const size: nat
    const arrayLength: nat
    const blockLength: nat
    const ciphertext: array<Bytes>
    var seed: int
    var outcome: Outcome

    ghost predicate Valid() {
      arrayLength == ArrayLength(size) && blockLength == arrayLength / HASHES && ciphertext.Length == arrayLength
    }

    /** Tries the seeds in turn. The first that leaves no core gives a table that answers every
        key; a seed that overfills a slot aborts the construction; a popped slot with an
        unexpected count never does. */
    constructor (word: HashWord, keys: seq<int>, ct: seq<Bytes>, seeds: seq<int>, filler: nat -> Digest)
      requires |keys| <= |ct|
      ensures Valid() && this.word == word && size == |keys|
      ensures Decided(word, keys, blockLength, seeds, outcome, seed)
      ensures outcome == Built ==> Complete(word, keys, ct[..size], blockLength, seed, ciphertext[..])
    {
      this.word := word;
      size := |keys|;
      arrayLength := ArrayLength(|keys|);
      blockLength := ArrayLength(|keys|) / HASHES;
      ciphertext := new Bytes[ArrayLength(|keys|)](_ => []);
      seed := 0;
      outcome := Retry;
      new;
      BlockLengthPositive(size);
      outcome, seed := Construct(word, keys, ct[..size], arrayLength, blockLength, seeds, filler, ciphertext);
    }

    /** Searching key number k of the construction reads exactly that key's answer. */
    method Search(key: int) returns (r: Bytes)
      requires Valid()
      ensures forall keys: seq<int>, k: nat {:trigger Slots(word, keys, seed, blockLength), keys[k]} ::
                k < |keys| && keys[k] == key ==>
                var slot := Slots(word, keys, seed, blockLength);
                && slot(k, 0) < ciphertext.Length && slot(k, 1) < ciphertext.Length && slot(k, 2) < ciphertext.Length
                && r == Lookup(ciphertext[..], slot, k)
    {
      var h := [GetHash(word, key, seed, 0, blockLength), GetHash(word, key, seed, 1, blockLength),
                GetHash(word, key, seed, 2, blockLength)];
      ReduceBelow(word(key, seed, 0), blockLength);
      ReduceBelow(word(key, seed, 1), blockLength);
      ReduceBelow(word(key, seed, 2), blockLength);
      var tail := Xor(ciphertext[h[1]], ciphertext[h[2]]);
      r := Xor(ciphertext[h[0]], tail);
    }
  }

  lemma AllFit(slot: SlotMap, n: nat, blockLength: nat, cells: seq<Bytes>)
    requires InBlocks(slot, n, blockLength) && |cells| >= 3 * blockLength
    ensures SlotsFit(slot, n, cells)
  {
    forall k: nat, b: nat | k < n && b < HASHES ensures slot(k, b) < |cells| {
      assert InBlock(slot(k, b), b, blockLength);
    }
  }
}
