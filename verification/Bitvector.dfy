/** Bit vectors packed into 64-bit words: every operation on the words does to the bits what its name says. */
module Bitvectors {
  import opened Arith
  import opened BitValues
  import opened Words
  import Bloom

  function BitsToBlocks(n: nat): nat { n / BITS + if n % BITS != 0 then 1 else 0 }

  ghost predicate AllWords(blocks: seq<nat>) { forall k :: 0 <= k < |blocks| ==> IsWord(blocks[k]) }

  /** Bit number i of the words. */
  predicate BitAt(blocks: seq<nat>, i: nat)
    requires i < BITS * |blocks|
  {
    Bit(blocks[i / BITS], i % BITS)
  }

  /** The bits behind the last one in use are zero. */
  ghost predicate UnusedZero(blocks: seq<nat>, n: nat) {
    forall i: nat :: n <= i < BITS * |blocks| ==> !BitAt(blocks, i)
  }

  ghost function BitsOf(blocks: seq<nat>, n: nat): (bits: seq<bool>)
    requires n <= BITS * |blocks|
    ensures |bits| == n
  {
    seq(n, i requires 0 <= i < n => BitAt(blocks, i))
  }

  function Zeros(n: nat): seq<bool> { seq(n, _ => false) }

  // ----- whole words

  /** What shifting by n = 64 div + r puts into word k. */
  function ShiftedWord(blocks: seq<nat>, div: nat, r: nat, k: nat): nat
    requires k < |blocks| && r < BITS
  {
    if k < div then 0
    else if r == 0 then blocks[k - div]
    else if k == div then Shl(blocks[0], r)
    else Or(Shl(blocks[k - div], r), Shr(blocks[k - div - 1], BITS - r))
  }

  /** Bit b of it is the bit n positions further down, or zero. */
  lemma ShiftedWordBit(blocks: seq<nat>, div: nat, r: nat, k: nat, b: nat)
    requires k < |blocks| && r < BITS && b < BITS && AllWords(blocks)
    ensures Bit(ShiftedWord(blocks, div, r, k), b) <==>
            BITS * k + b >= BITS * div + r && BitAt(blocks, BITS * k + b - (BITS * div + r))
    ensures IsWord(ShiftedWord(blocks, div, r, k))
  {
    hide Bit, Or, Shl, Shr, Pow2;
    BitOfZero(b);
    ZeroIsWord();
    if k >= div {
      WordsStay(blocks[k - div], 0, r);
      ShlBit(blocks[k - div], r, b);
      if k > div {
        WordsStay(0, blocks[k - div - 1], BITS - r);
        WordsStay(blocks[k - div - 1], 0, BITS - r);
        WordsStay(Shl(blocks[k - div], r), Shr(blocks[k - div - 1], BITS - r), 0);
        OrBit(Shl(blocks[k - div], r), Shr(blocks[k - div - 1], BITS - r), b);
        ShrBit(blocks[k - div - 1], BITS - r, b);
        if b < r { NextWord(k - div - 1, b + BITS - r); } else { NoBitAbove(blocks[k - div - 1], BITS, b - r); }
      }
      if b >= r { NextWord(k - div, b - r); }
    }
  }

  lemma ZeroIsWord()
    ensures IsWord(0)
  {}

  lemma NextWord(k: nat, b: nat)
    requires b < BITS
    ensures (BITS * k + b) / BITS == k && (BITS * k + b) % BITS == b
  {}

  lemma WordOf(i: nat)
    ensures i % BITS < BITS && i == BITS * (i / BITS) + i % BITS
  {}

  lemma Room(n: nat)
    ensures n <= BITS * BitsToBlocks(n) < n + BITS
    ensures n % BITS != 0 ==> BitsToBlocks(n) > 0 && n == BITS * (BitsToBlocks(n) - 1) + n % BITS
    ensures n % BITS == 0 ==> n == BITS * BitsToBlocks(n)
  {}

  // ----- clearing the unused bits

  /** The mask that keeps the lowest bits of a word. */
  function LowMask(bits: nat): nat {
    ZeroIsWord();
    WordsStay(Not(0), 0, bits);
    Not(Shl(Not(0), bits))
  }

  lemma LowMaskBit(bits: nat, b: nat)
    requires b < BITS
    ensures IsWord(LowMask(bits)) && (Bit(LowMask(bits), b) <==> b < bits)
  {
    hide Bit, Shl, Pow2, Not;
    ZeroIsWord();
    WordsStay(0, 0, bits);
    WordsStay(Not(0), 0, bits);
    WordsStay(Shl(Not(0), bits), 0, 0);
    NotBit(Shl(Not(0), bits), b);
    ShlBit(Not(0), bits, b);
    if b >= bits {
      NotBit(0, b - bits);
      BitOfZero(b - bits);
    }
  }

  function Trimmed(blocks: seq<nat>, n: nat): (t: seq<nat>)
    requires |blocks| == BitsToBlocks(n)
    ensures |t| == |blocks|
  {
    if n % BITS == 0 then blocks else blocks[|blocks| - 1 := And(blocks[|blocks| - 1], LowMask(n % BITS))]
  }

  /** Trimming keeps the bits in use and clears the others. */
  lemma TrimmedBit(blocks: seq<nat>, n: nat, i: nat)
    requires |blocks| == BitsToBlocks(n) && AllWords(blocks) && i < BITS * |blocks|
    ensures |Trimmed(blocks, n)| == |blocks| && (BitAt(Trimmed(blocks, n), i) <==> i < n && BitAt(blocks, i))
  {
    hide Bit, And, LowMask, Pow2;
    Room(n);
    WordOf(i);
    var last := |blocks| - 1;
    if n % BITS != 0 && i / BITS == last {
      LowMaskBit(n % BITS, i % BITS);
      AndBit(blocks[last], LowMask(n % BITS), i % BITS);
    }
  }

  lemma TrimmedWords(blocks: seq<nat>, n: nat)
    requires |blocks| == BitsToBlocks(n) && AllWords(blocks)
    ensures AllWords(Trimmed(blocks, n))
  {
    hide And, LowMask, Pow2;
    Room(n);
    if n % BITS != 0 {
      LowMaskBit(n % BITS, 0);
      WordsStay(blocks[|blocks| - 1], LowMask(n % BITS), 0);
    }
  }

  /** Trimmed words hold some bits if the words did. */
  lemma TrimmedBits(blocks: seq<nat>, n: nat, bits: seq<bool>)
    requires |blocks| == BitsToBlocks(n) && AllWords(blocks) && |bits| == n
    requires n <= BITS * |blocks| && forall i: nat :: i < n ==> BitAt(blocks, i) == bits[i]
    ensures var t := Trimmed(blocks, n);
            |t| == |blocks| && AllWords(t) && UnusedZero(t, n) && BitsOf(t, n) == bits
  {
    hide BitAt, Trimmed;
    TrimmedWords(blocks, n);
    forall i: nat | i < BITS * |blocks|
      ensures |Trimmed(blocks, n)| == |blocks| && (BitAt(Trimmed(blocks, n), i) <==> i < n && BitAt(blocks, i))
    {
      TrimmedBit(blocks, n, i);
    }
  }

  // ----- the operations on words, bit by bit

  lemma ShiftedBits(was: seq<nat>, blocks: seq<nat>, num: nat, n: nat, i: nat)
    requires AllWords(was) && |blocks| == |was| && i < num <= BITS * |was|
    requires forall k :: 0 <= k < |was| ==> blocks[k] == ShiftedWord(was, n / BITS, n % BITS, k)
    ensures BitAt(blocks, i) <==> i >= n && BitAt(was, i - n)
  {
    hide Bit, ShiftedWord, Pow2;
    WordOf(i);
    WordOf(n);
    ShiftedWordBit(was, n / BITS, n % BITS, i / BITS, i % BITS);
  }

  lemma ShiftedWords(was: seq<nat>, blocks: seq<nat>, n: nat)
    requires AllWords(was) && |blocks| == |was|
    requires forall k :: 0 <= k < |was| ==> blocks[k] == ShiftedWord(was, n / BITS, n % BITS, k)
    ensures AllWords(blocks)
  {
    hide Bit, ShiftedWord, Pow2, BitAt, IsWord;
    forall k | 0 <= k < |blocks| ensures IsWord(blocks[k]) { ShiftedWordBit(was, n / BITS, n % BITS, k, 0); }
  }

  /** The bits after a shift by n: zeros come in from below. */
  function ShiftedUp(bits: seq<bool>, n: nat): (r: seq<bool>)
    ensures |r| == |bits|
  {
    var m := Min(n, |bits|);
    Zeros(m) + bits[..|bits| - m]
  }

  lemma {:induction false} ValueSplit(s: seq<bool>, t: seq<bool>)
    ensures Value(s + t) == Value(s) + Pow2(|s|) * Value(t)
  {
    hide Value, Pow2;
    if t == [] {
      assert s + t == s;
      ValueOfZeros(t);
    } else {
      var front, b := t[..|t| - 1], t[|t| - 1];
      ValueSplit(s, front);
      ValueAppend(s + front, b);
      ValueAppend(front, b);
      assert s + t == s + front + [b] && t == front + [b];
      Pow2Add(|s|, |front|);
      Distributes(Pow2(|s|), Value(front), Pow2(|front|));
    }
  }

  lemma Distributes(p: nat, a: nat, b: nat)
    ensures p * (a + b) == p * a + p * b
  {}

  /** Shifting the bits up by n multiplies their value by 2^n, modulo two to the number of bits. */
  lemma ShiftMultiplies(bits: seq<bool>, n: nat)
    ensures Value(ShiftedUp(bits, n)) == Value(bits) * Pow2(n) % Pow2(|bits|)
  {
    hide Value, Pow2;
    var m := Min(n, |bits|);
    var low, high := bits[..|bits| - m], bits[|bits| - m..];
    assert bits == low + high;
    ValueSplit(low, high);
    ValueSplit(Zeros(m), low);
    ValueOfZeros(Zeros(m));
    if n >= |bits| {
      ValueOfZeros(low);
      Pow2Add(n - m, m);
      AllShiftedOut(Value(bits), Pow2(n - m), Pow2(m));
    } else {
      ValueBelow(ShiftedUp(bits, n));
      Pow2Add(|low|, m);
      HighShiftedOut(Value(low), Value(high), Pow2(|low|), Pow2(m));
    }
  }

  lemma AllShiftedOut(v: nat, k: nat, m: nat)
    requires m > 0
    ensures v * (k * m) % m == 0 && m * 0 == 0
  {
    assert v * (k * m) == (v * k) * m;
    MultipleOf(v * k, m);
  }

  lemma HighShiftedOut(a: nat, b: nat, p: nat, m: nat)
    requires p > 0 && m * a < p * m
    ensures (a + p * b) * m % (p * m) == m * a
  {
    assert (a + p * b) * m == b * (p * m) + m * a;
    DivModUnique((a + p * b) * m, p * m, b, m * a);
  }

  /** The bits of a word. */
  function WordBits(block: nat): (bits: seq<bool>)
    ensures |bits| == BITS
  {
    seq(BITS, i requires 0 <= i < BITS => Bit(block, i))
  }

  /** The bits of a number give the number back. */
  lemma {:induction false} LowBitsValue(v: nat, k: nat)
    ensures Value(LowBits(v, k)) == v % Pow2(k)
  {
    hide Bit, Value;
    if k == 0 {
      ValueOfZeros(LowBits(v, 0));
    } else {
      LowBitsValue(v, k - 1);
      NextBit(v, k - 1);
      ValueAppend(LowBits(v, k - 1), Bit(v, k - 1));
      assert LowBits(v, k) == LowBits(v, k - 1) + [Bit(v, k - 1)];
    }
  }

  lemma WordBitsValue(block: nat)
    requires IsWord(block)
    ensures Value(WordBits(block)) == block
  {
    hide Bit, Value;
    assert WordBits(block) == LowBits(block, BITS);
    LowBitsValue(block, BITS);
    DivModUnique(block, Pow2(BITS), 0, block);
  }

  lemma ValueAppended(bits: seq<bool>, block: nat)
    requires IsWord(block)
    ensures Value(bits + WordBits(block)) == Value(bits) + Pow2(|bits|) * block
  {
    hide Value, Pow2, WordBits;
    ValueSplit(bits, WordBits(block));
    WordBitsValue(block);
  }

  lemma WordBitsAt(blocks: seq<nat>, num: nat, block: nat, i: nat)
    requires |blocks| == BitsToBlocks(num) && AllWords(blocks) && IsWord(block) && UnusedZero(blocks, num)
    requires i < num + BITS
    ensures |Appended(blocks, num, block)| == BitsToBlocks(num + BITS)
    ensures num + BITS <= BITS * |Appended(blocks, num, block)|
    ensures BitAt(Appended(blocks, num, block), i) == if i < num then BitAt(blocks, i) else Bit(block, i - num)
  {
    hide Bit, Or, Shl, Shr, Pow2, IsWord;
    var excess, all := num % BITS, Appended(blocks, num, block);
    Room(num);
    WordOf(i);
    if excess != 0 {
      var last, b := |blocks| - 1, i % BITS;
      if i / BITS == last {
        OrBit(blocks[last], Shl(block, excess), b);
        ShlBit(block, excess, b);
        assert i >= num ==> !BitAt(blocks, i);
        assert i - num == b - excess;
      } else if i / BITS == last + 1 {
        ShrBit(block, BITS - excess, b);
        assert i - num == b + BITS - excess;
      }
    }
  }

  /** The words after one more word of bits, which may lie across two of them. */
  function Appended(blocks: seq<nat>, num: nat, block: nat): seq<nat>
    requires |blocks| == BitsToBlocks(num)
  {
    var excess := num % BITS;
    if excess == 0 then blocks + [block]
    else
      var longer := blocks + [Shr(block, BITS - excess)];
      longer[|longer| - 2 := Or(longer[|longer| - 2], Shl(block, excess))]
  }

  lemma AppendedWords(blocks: seq<nat>, num: nat, block: nat)
    requires |blocks| == BitsToBlocks(num) && AllWords(blocks) && IsWord(block) && UnusedZero(blocks, num)
    ensures |Appended(blocks, num, block)| == BitsToBlocks(num + BITS) && AllWords(Appended(blocks, num, block))
  {
    hide Bit, Or, Shl, Shr, Pow2, IsWord;
    Room(num);
    if num % BITS != 0 {
      WordsStay(block, block, BITS - num % BITS);
      WordsStay(block, block, num % BITS);
      WordsStay(blocks[|blocks| - 1], Shl(block, num % BITS), 0);
    }
  }

  /** Nothing is left behind the appended word. */
  lemma AppendedUnused(blocks: seq<nat>, num: nat, block: nat)
    requires |blocks| == BitsToBlocks(num) && AllWords(blocks) && IsWord(block) && UnusedZero(blocks, num)
    ensures UnusedZero(Appended(blocks, num, block), num + BITS)
  {
    hide Bit, Or, Shl, Shr, Pow2;
    var all := Appended(blocks, num, block);
    Room(num);
    forall i: nat | num + BITS <= i < BITS * |all| ensures !BitAt(all, i) {
      WordOf(i);
      ShrBit(block, BITS - num % BITS, i % BITS);
      NoBitAbove(block, BITS, i % BITS - num % BITS);
    }
  }

  // ----- resizing

  /** The words of the new size before the last one is trimmed. */
  function Resized(blocks: seq<nat>, num: nat, n: nat, value: bool): (r: seq<nat>)
    requires |blocks| == BitsToBlocks(num)
    ensures |r| == BitsToBlocks(n)
  {
    var before, required, filler := |blocks|, BitsToBlocks(n), Filler(value);
    var r := if required <= before then blocks[..required] else blocks + seq(required - before, _ => filler);
    Room(num);
    if value && n > num && num % BITS != 0 then r[before - 1 := Or(r[before - 1], Shl(filler, num % BITS))] else r
  }

  function Filler(value: bool): nat {
    ZeroIsWord();
    if value then Not(0) else 0
  }

  lemma FillerBit(value: bool, b: nat)
    requires b < BITS
    ensures IsWord(Filler(value)) && Bit(Filler(value), b) == value
  {
    hide Bit, Pow2, Not;
    ZeroIsWord();
    WordsStay(0, 0, 0);
    BitOfZero(b);
    NotBit(0, b);
  }

  lemma ResizedBit(blocks: seq<nat>, num: nat, n: nat, value: bool, i: nat)
    requires |blocks| == BitsToBlocks(num) && AllWords(blocks) && UnusedZero(blocks, num) && i < n
    ensures i < BITS * |Resized(blocks, num, n, value)|
    ensures num <= BITS * |blocks|
    ensures BitAt(Resized(blocks, num, n, value), i) == if i < num then BitAt(blocks, i) else value
  {
    hide Bit, Or, Shl, Pow2, Filler, IsWord;
    Room(num);
    Room(n);
    WordOf(i);
    FillerBit(value, i % BITS);
    var k, b, before, excess := i / BITS, i % BITS, |blocks|, num % BITS;
    assert k < before && i >= num ==> !BitAt(blocks, i);
    if k == before - 1 && excess != 0 {
      OrBit(blocks[k], Shl(Filler(value), excess), b);
      ShlBit(Filler(value), excess, b);
      if b >= excess { FillerBit(value, b - excess); }
    }
  }

  lemma ResizedWords(blocks: seq<nat>, num: nat, n: nat, value: bool)
    requires |blocks| == BitsToBlocks(num) && AllWords(blocks)
    ensures AllWords(Resized(blocks, num, n, value))
  {
    hide Bit, Or, Shl, Pow2, Filler, IsWord;
    Room(num);
    FillerBit(value, 0);
    if num % BITS != 0 {
      WordsStay(Filler(value), Filler(value), num % BITS);
      WordsStay(blocks[|blocks| - 1], Shl(Filler(value), num % BITS), 0);
    }
  }

  /** Resized and trimmed, the words hold the resized bits. */
  lemma ResizedBits(blocks: seq<nat>, num: nat, n: nat, value: bool)
    requires |blocks| == BitsToBlocks(num) && AllWords(blocks) && UnusedZero(blocks, num)
    ensures n <= BITS * BitsToBlocks(n) && num <= BITS * |blocks|
    ensures var t, bits := Trimmed(Resized(blocks, num, n, value), n), BitsOf(blocks, num);
            && |t| == BitsToBlocks(n) && AllWords(t) && UnusedZero(t, n)
            && BitsOf(t, n) == if n <= num then bits[..n] else bits + seq(n - num, _ => value)
  {
    hide BitAt, UnusedZero, Pow2, IsWord, Trimmed, Resized;
    Room(num);
    Room(n);
    var bits := BitsOf(blocks, num);
    var bits' := if n <= num then bits[..n] else bits + seq(n - num, _ => value);
    ResizedWords(blocks, num, n, value);
    forall i: nat | i < n
      ensures BitAt(Resized(blocks, num, n, value), i) == bits'[i]
    {
      ResizedBit(blocks, num, n, value, i);
    }
    TrimmedBits(Resized(blocks, num, n, value), n, bits');
  }

  // ----- searching

  const NPOS := -1

  /** p is the first set bit at position from or later, NPOS if there is none. */
  ghost predicate IsFirstFrom(bits: seq<bool>, from: nat, p: int) {
    if p == NPOS then forall i :: from <= i < |bits| ==> !bits[i]
    else from <= p < |bits| && bits[p] && forall i :: from <= i < p ==> !bits[i]
  }

  lemma ZeroWord(blocks: seq<nat>, i: nat)
    requires i < BITS * |blocks| && blocks[i / BITS] == 0
    ensures !BitAt(blocks, i)
  {
    hide Bit;
    BitOfZero(i % BITS);
  }

  lemma AllBlocksZero(blocks: seq<nat>, n: nat)
    requires |blocks| == BitsToBlocks(n) && forall k :: 0 <= k < |blocks| ==> blocks[k] == 0
    ensures n <= BITS * |blocks| && AllWords(blocks) && UnusedZero(blocks, n) && BitsOf(blocks, n) == Zeros(n)
  {
    hide Bit, Pow2;
    ZeroIsWord();
    Room(n);
    forall i: nat | i < BITS * |blocks| ensures !BitAt(blocks, i) { ZeroWord(blocks, i); }
  }

  function Inverted(bits: seq<bool>): seq<bool> { seq(|bits|, i requires 0 <= i < |bits| => !bits[i]) }

  lemma WholeShift(num: nat, n: nat)
    requires n < num
    ensures n / BITS < BitsToBlocks(num)
  {}

  /** The lowest set bit of a word is the first set bit from the word on. */
  lemma LowestAt(blocks: seq<nat>, num: nat, k: nat, log: nat)
    requires k < |blocks| && num <= BITS * |blocks| && UnusedZero(blocks, num) && IsLowest(blocks[k], log) && log < BITS
    ensures k * BITS + log < num && BitAt(blocks, k * BITS + log)
    ensures forall j: nat :: BITS * k <= j < k * BITS + log ==> !BitAt(blocks, j)
  {
    hide Bit;
    NextWord(k, log);
    assert BitAt(blocks, k * BITS + log);
    forall j: nat | BITS * k <= j < k * BITS + log ensures !BitAt(blocks, j) { NextWord(k, j - BITS * k); }
  }

  /** The part of a word from bit r on. */
  lemma HighPart(v: nat, r: nat)
    requires IsWord(v) && r < BITS
    ensures IsWord(0) && IsWord(And(v, Shl(Not(0), r)))
    ensures forall b: nat :: b < BITS ==> (Bit(And(v, Shl(Not(0), r)), b) <==> b >= r && Bit(v, b))
  {
    hide Bit, And, Shl, Not, Pow2;
    ZeroIsWord();
    WordsStay(0, 0, 0);
    WordsStay(Not(0), 0, r);
    WordsStay(v, Shl(Not(0), r), 0);
    forall b: nat | b < BITS ensures Bit(And(v, Shl(Not(0), r)), b) <==> b >= r && Bit(v, b) {
      AndBit(v, Shl(Not(0), r), b);
      ShlBit(Not(0), r, b);
      if b >= r {
        NotBit(0, b - r);
        BitOfZero(b - r);
      }
    }
  }

  lemma HighLowest(blocks: seq<nat>, num: nat, next: nat, log: nat)
    requires num <= BITS * |blocks| && AllWords(blocks) && UnusedZero(blocks, num) && next / BITS < |blocks|
    requires log < BITS
    requires IsWord(0) && IsLowest(And(blocks[next / BITS], Shl(Not(0), next % BITS)), log)
    ensures var p := next / BITS * BITS + log;
            next <= p < num && BitAt(blocks, p) && forall j: nat :: next <= j < p ==> !BitAt(blocks, j)
  {
    hide Bit, And, Shl, Not, Pow2;
    var k := next / BITS;
    WordOf(next);
    HighPart(blocks[k], next % BITS);
    NextWord(k, log);
    assert BitAt(blocks, k * BITS + log);
    forall j: nat | next <= j < k * BITS + log ensures !BitAt(blocks, j) { NextWord(k, j - BITS * k); }
  }

  lemma HighEmpty(blocks: seq<nat>, num: nat, next: nat)
    requires num <= BITS * |blocks| && AllWords(blocks) && next / BITS < |blocks|
    requires IsWord(0) && And(blocks[next / BITS], Shl(Not(0), next % BITS)) == 0
    ensures forall j: nat :: next <= j < BITS * (next / BITS + 1) ==> !BitAt(blocks, j)
  {
    hide Bit, And, Shl, Not, Pow2;
    var k := next / BITS;
    WordOf(next);
    HighPart(blocks[k], next % BITS);
    forall j: nat | next <= j < BITS * (k + 1) ensures !BitAt(blocks, j) {
      NextWord(k, j - BITS * k);
      BitOfZero(j - BITS * k);
    }
  }

  // ----- single bits and pairs of vectors

  function WithBit(word: nat, b: nat, bit: bool): nat
    requires b < BITS
  {
    MaskBit(b, 0);
    if bit then Or(word, BitMask(b)) else And(word, Not(BitMask(b)))
  }

  /** Setting or clearing one bit of a word changes no other. */
  lemma WithBitExact(word: nat, b: nat, bit: bool, c: nat)
    requires IsWord(word) && b < BITS && c < BITS
    ensures IsWord(WithBit(word, b, bit)) && (Bit(WithBit(word, b, bit), c) <==> if c == b then bit else Bit(word, c))
  {
    hide Bit, And, Or, Not, BitMask, Pow2;
    MaskBit(b, c);
    WordsStay(word, BitMask(b), 0);
    WordsStay(BitMask(b), 0, 0);
    OrBit(word, BitMask(b), c);
    NotBit(BitMask(b), c);
    WordsStay(word, Not(BitMask(b)), 0);
    AndBit(word, Not(BitMask(b)), c);
  }

  lemma OneBitWritten(was: seq<nat>, i: nat, bit: bool, j: nat)
    requires AllWords(was) && i < BITS * |was| && j < BITS * |was|
    ensures var blocks := was[i / BITS := WithBit(was[i / BITS], i % BITS, bit)];
            AllWords(blocks) && (BitAt(blocks, j) <==> if j == i then bit else BitAt(was, j))
  {
    hide Bit, WithBit, Pow2, IsWord;
    WordOf(i);
    WordOf(j);
    WithBitExact(was[i / BITS], i % BITS, bit, j % BITS);
  }

  /** Combining two vectors word by word combines them bit by bit. */
  lemma CombinedBits(a: seq<nat>, b: seq<nat>, i: nat)
    requires AllWords(a) && AllWords(b) && |a| == |b| && i < BITS * |a|
    ensures IsWord(Or(a[i / BITS], b[i / BITS])) && IsWord(Xor(a[i / BITS], b[i / BITS]))
    ensures Bit(Or(a[i / BITS], b[i / BITS]), i % BITS) <==> BitAt(a, i) || BitAt(b, i)
    ensures Bit(Xor(a[i / BITS], b[i / BITS]), i % BITS) <==> BitAt(a, i) != BitAt(b, i)
  {
    hide Bit, Or, Tool.NatXor, Pow2;
    var v, w := a[i / BITS], b[i / BITS];
    WordsStay(v, w, 0);
    Tool.NatXorBelow(v, w, BITS);
    OrBit(v, w, i % BITS);
    XorBit(v, w, i % BITS);
  }

  lemma CombinedOr(a: seq<nat>, b: seq<nat>, blocks: seq<nat>, n: nat)
    requires AllWords(a) && AllWords(b) && |a| == |b| == |blocks| == BitsToBlocks(n) && UnusedZero(a, n)
    requires UnusedZero(b, n)
    requires forall k :: 0 <= k < |blocks| ==> blocks[k] == Or(a[k], b[k])
    requires n <= BITS * |blocks|
    ensures AllWords(blocks) && UnusedZero(blocks, n) && BitsOf(blocks, n) == Bloom.Or(BitsOf(a, n), BitsOf(b, n))
  {
    hide Bit, Or, Pow2, IsWord;
    forall i: nat | i < BITS * |blocks|
      ensures BitAt(blocks, i) <==> BitAt(a, i) || BitAt(b, i)
    {
      CombinedBits(a, b, i);
    }
    forall k | 0 <= k < |blocks| ensures IsWord(blocks[k]) {
      CombinedBits(a, b, BITS * k);
      NextWord(k, 0);
    }
  }

  /** The positions where two lists of bits differ. */
  function Unlike(a: seq<bool>, b: seq<bool>): (r: seq<bool>)
    requires |a| == |b|
  {
    seq(|a|, i requires 0 <= i < |a| => a[i] != b[i])
  }

  /** Counting them gives the Hamming distance. */
  lemma {:induction false} UnlikeCounted(a: seq<bool>, b: seq<bool>)
    requires |a| == |b|
    ensures Bloom.Ones(Unlike(a, b)) == Bloom.Differences(a, b)
  {
    if a != [] {
      var front, last := Unlike(a, b)[..|a| - 1], |a| - 1;
      assert front == Unlike(a[..last], b[..last]);
      UnlikeCounted(a[..last], b[..last]);
    }
  }

  lemma CombinedXor(a: seq<nat>, b: seq<nat>, blocks: seq<nat>, n: nat)
    requires AllWords(a) && AllWords(b) && |a| == |b| == |blocks| == BitsToBlocks(n) && UnusedZero(a, n)
    requires UnusedZero(b, n)
    requires forall k :: 0 <= k < |blocks| ==> blocks[k] == Xor(a[k], b[k])
    requires n <= BITS * |blocks|
    ensures AllWords(blocks) && UnusedZero(blocks, n) && BitsOf(blocks, n) == Unlike(BitsOf(a, n), BitsOf(b, n))
  {
    hide Bit, Xor, Pow2, IsWord;
    forall i: nat | i < BITS * |blocks|
      ensures BitAt(blocks, i) <==> BitAt(a, i) != BitAt(b, i)
    {
      CombinedBits(a, b, i);
    }
    forall k | 0 <= k < |blocks| ensures IsWord(blocks[k]) {
      CombinedBits(a, b, BITS * k);
      NextWord(k, 0);
    }
  }

  // ----- counting

  lemma {:induction false} OnesConcat(s: seq<bool>, t: seq<bool>)
    ensures Bloom.Ones(s + t) == Bloom.Ones(s) + Bloom.Ones(t)
  {
    if t == [] {
      assert s + t == s;
    } else {
      var front := t[..|t| - 1];
      OnesConcat(s, front);
      assert (s + t)[..|s + t| - 1] == s + front;
    }
  }

  lemma {:induction false} OnesOfZeros(n: nat)
    ensures Bloom.Ones(Zeros(n)) == 0
  {
    if n > 0 {
      OnesOfZeros(n - 1);
      assert Zeros(n)[..n - 1] == Zeros(n - 1);
    }
  }

  /** The lowest k bits of a number. */
  function LowBits(v: nat, k: nat): seq<bool> { seq(k, i requires 0 <= i => Bit(v, i)) }

  lemma {:induction false} LowBitsCounted(v: nat, k: nat)
    requires v < Pow2(k)
    ensures Bloom.Ones(LowBits(v, k)) == OnesOf(v)
    decreases k
  {
    hide Bit;
    if k > 0 {
      var low := [v % 2 == 1];
      forall i: nat | i < k ensures LowBits(v, k)[i] == (low + LowBits(v / 2, k - 1))[i] {
        if i == 0 { BitZero(v); } else { BitUp(v, i - 1); }
      }
      assert LowBits(v, k) == low + LowBits(v / 2, k - 1);
      OnesConcat(low, LowBits(v / 2, k - 1));
      LowBitsCounted(v / 2, k - 1);
      OnesHalf(v);
      assert low[..0] == [];
    }
  }

  function OnesOfWords(blocks: seq<nat>): nat {
    if blocks == [] then 0 else OnesOfWords(blocks[..|blocks| - 1]) + OnesOf(blocks[|blocks| - 1])
  }

  lemma {:induction false} WordsCounted(blocks: seq<nat>)
    requires AllWords(blocks)
    ensures Bloom.Ones(BitsOf(blocks, BITS * |blocks|)) == OnesOfWords(blocks)
  {
    hide Bit, Pow2;
    if blocks != [] {
      var front, last := blocks[..|blocks| - 1], blocks[|blocks| - 1];
      WordsCounted(front);
      LowBitsCounted(last, BITS);
      forall i: nat | i < BITS * |blocks|
        ensures BitsOf(blocks, BITS * |blocks|)[i] == (BitsOf(front, BITS * |front|) + LowBits(last, BITS))[i]
      {
        WordOf(i);
        if i >= BITS * |front| { NextWord(|front|, i - BITS * |front|); }
      }
      assert BitsOf(blocks, BITS * |blocks|) == BitsOf(front, BITS * |front|) + LowBits(last, BITS);
      OnesConcat(BitsOf(front, BITS * |front|), LowBits(last, BITS));
    }
  }

  /** The unused bits count for nothing. */
  lemma UsedCounted(blocks: seq<nat>, n: nat)
    requires AllWords(blocks) && n <= BITS * |blocks| && UnusedZero(blocks, n)
    ensures Bloom.Ones(BitsOf(blocks, n)) == OnesOfWords(blocks)
  {
    hide Bit, Pow2;
    var all, rest := BITS * |blocks|, BITS * |blocks| - n;
    WordsCounted(blocks);
    assert BitsOf(blocks, all) == BitsOf(blocks, n) + Zeros(rest);
    OnesConcat(BitsOf(blocks, n), Zeros(rest));
    OnesOfZeros(rest);
  }

  class Bitvector {
    var blocks: seq<nat>
    var numBits: nat

    ghost predicate Valid()
      reads this
    {
      |blocks| == BitsToBlocks(numBits) && AllWords(blocks) && UnusedZero(blocks, numBits)
    }

    ghost function Bits(): (bits: seq<bool>)
      requires Valid()
      reads this
      ensures |bits| == numBits
    {
      Room(numBits);
      BitsOf(blocks, numBits)
    }

    constructor ()
      ensures Valid() && Bits() == []
    {
      blocks, numBits := [], 0;
    }

    /** A vector of zeros. */
    constructor OfSize(size: nat)
      ensures Valid() && Bits() == Zeros(size)
    {
      blocks, numBits := seq(BitsToBlocks(size), _ => 0), size;
      new;
      AllBlocksZero(blocks, size);
    }

    method ZeroUnusedBits()
      requires |blocks| == BitsToBlocks(numBits)
      modifies this`blocks
      ensures blocks == Trimmed(old(blocks), numBits)
    {
      var extra := numBits % BITS;
      if extra != 0 {
        Room(numBits);
        blocks := blocks[|blocks| - 1 := And(blocks[|blocks| - 1], LowMask(extra))];
      }
    }

    method Reset()
      requires Valid()
      modifies this`blocks
      ensures Valid() && Bits() == Zeros(numBits)
    {
      hide Bit, Pow2;
      blocks := seq(|blocks|, _ => 0);
      AllBlocksZero(blocks, numBits);
    }

    /** Reads one bit. */
    method Get(i: nat) returns (bit: bool)
      requires Valid() && i < numBits
      ensures bit == Bits()[i]
    {
      hide Bit, And, BitMask, Pow2;
      Room(numBits);
      WordOf(i);
      MaskTells(blocks[i / BITS], i % BITS);
      bit := And(blocks[i / BITS], BitMask(i % BITS)) != 0;
    }

    /** Writes one bit. */
    method Set(i: nat, bit: bool)
      requires Valid() && i < numBits
      modifies this`blocks
      ensures Valid() && Bits() == old(Bits())[i := bit]
    {
      hide Bit, And, Or, Not, BitMask, Pow2, IsWord;
      ghost var was := blocks;
      Room(numBits);
      WordOf(i);
      var word := blocks[i / BITS];
      MaskBit(i % BITS, 0);
      blocks := blocks[i / BITS := if bit then Or(word, BitMask(i % BITS)) else And(word, Not(BitMask(i % BITS)))];
      assert blocks[i / BITS] == WithBit(word, i % BITS, bit);
      forall j: nat | j < BITS * |was| ensures BitAt(blocks, j) <==> if j == i then bit else BitAt(was, j) {
        OneBitWritten(was, i, bit, j);
      }
      OneBitWritten(was, i, bit, i);
    }

    /** The union with another vector of the same length. */
    method OrWith(other: Bitvector)
      requires Valid() && other.Valid() && other.numBits == numBits
      modifies this`blocks
      ensures Valid() && Bits() == Bloom.Or(old(Bits()), old(other.Bits()))
    {
      hide Bit, Or, Pow2, IsWord, AllWords, UnusedZero, BitsOf;
      ghost var was, their := blocks, other.blocks;
      Room(numBits);
      for k := 0 to |blocks|
        invariant |blocks| == |was| && (other != this ==> other.blocks == their)
        invariant forall j :: 0 <= j < |was| ==> blocks[j] == if j < k then Or(was[j], their[j]) else was[j]
      {
        blocks := blocks[k := Or(blocks[k], other.blocks[k])];
      }
      CombinedOr(was, their, blocks, numBits);
    }

    /** The positions where this vector differs from another of the same length. */
    method XorWith(other: Bitvector)
      requires Valid() && other.Valid() && other.numBits == numBits
      modifies this`blocks
      ensures Valid() && Bits() == Unlike(old(Bits()), old(other.Bits()))
    {
      hide Bit, Xor, Pow2, IsWord, AllWords, UnusedZero, BitsOf;
      ghost var was, their := blocks, other.blocks;
      Room(numBits);
      for k := 0 to |blocks|
        invariant |blocks| == |was| && (other != this ==> other.blocks == their)
        invariant forall j :: 0 <= j < |was| ==> blocks[j] == if j < k then Xor(was[j], their[j]) else was[j]
      {
        blocks := blocks[k := Xor(blocks[k], other.blocks[k])];
      }
      CombinedXor(was, their, blocks, numBits);
    }

    /** The number of set bits, byte by byte. */
    method Count() returns (n: nat)
      requires Valid()
      ensures n == Bloom.Ones(Bits())
    {
      hide Bit, OnesOf, Pow2, UnusedZero;
      Room(numBits);
      UsedCounted(blocks, numBits);
      n := 0;
      for k := 0 to |blocks|
        invariant n == OnesOfWords(blocks[..k])
      {
        assert blocks[..k + 1][..k] == blocks[..k];
        var ones := CountWord(blocks[k]);
        n := n + ones;
      }
      assert blocks[..|blocks|] == blocks;
    }

    /** Moves every bit n positions up. */
    method ShiftLeft(n: nat)
      requires Valid()
      modifies this`blocks
      ensures Valid() && Bits() == ShiftedUp(old(Bits()), n)
      ensures Value(Bits()) == Value(old(Bits())) * Pow2(n) % Pow2(numBits)
    {
      hide Bit, Pow2, Value, ShiftedWord, IsWord, Trimmed, LowMask;
      ghost var was, bits := blocks, Bits();
      ShiftMultiplies(bits, n);
      Room(numBits);
      if n >= numBits {
        Reset();
        assert ShiftedUp(bits, n) == Zeros(numBits);
        return;
      }
      if n > 0 {
        WholeShift(numBits, n);
        ShiftWords(n / BITS, n % BITS);
        ShiftedWords(was, blocks, n);
        forall i: nat | i < numBits ensures BitAt(blocks, i) == ShiftedUp(bits, n)[i] {
          ShiftedBits(was, blocks, numBits, n, i);
        }
        TrimmedBits(blocks, numBits, ShiftedUp(bits, n));
        ZeroUnusedBits();
      } else {
        assert ShiftedUp(bits, 0) == bits;
      }
    }

    /** Moves the words up in place, from the last one down, and clears the lowest ones. */
    method ShiftWords(div: nat, r: nat)
      requires div < |blocks| && r < BITS
      modifies this`blocks
      ensures |blocks| == old(|blocks|)
      ensures forall k :: 0 <= k < |blocks| ==> blocks[k] == ShiftedWord(old(blocks), div, r, k)
    {
      hide Or, Shl, Shr;
      ghost var was := blocks;
      var i := |blocks| - 1 - div;
      if r != 0 {
        while i > 0
          invariant 0 <= i && i + div < |blocks| == |was|
          invariant forall k :: 0 <= k < |blocks| ==>
                      blocks[k] == if k > i + div then ShiftedWord(was, div, r, k) else was[k]
        {
          blocks := blocks[i + div := Or(Shl(blocks[i], r), Shr(blocks[i - 1], BITS - r))];
          i := i - 1;
        }
        blocks := blocks[div := Shl(blocks[0], r)];
      } else {
        while i > 0
          invariant 0 <= i && i + div < |blocks| == |was|
          invariant forall k :: 0 <= k < |blocks| ==>
                      blocks[k] == if k > i + div then ShiftedWord(was, div, r, k) else was[k]
        {
          blocks := blocks[i + div := blocks[i]];
          i := i - 1;
        }
        blocks := blocks[div := blocks[0]];
      }
      for k := 0 to div
        invariant |blocks| == |was|
        invariant forall j :: 0 <= j < |blocks| && (j < k || j >= div) ==> blocks[j] == ShiftedWord(was, div, r, j)
      {
        blocks := blocks[k := 0];
      }
    }

    /** Cuts the vector off, or fills it up with copies of one bit. */
    method Resize(n: nat, value: bool)
      requires Valid()
      modifies this
      ensures Valid() && numBits == n
      ensures Bits() == if n <= old(numBits) then old(Bits())[..n] else old(Bits()) + seq(n - old(numBits), _ => value)
    {
      hide BitAt, UnusedZero, Pow2, IsWord, Trimmed, LowMask, Or, Shl;
      ghost var was, num := blocks, numBits;
      var before, required, filler := |blocks|, BitsToBlocks(n), Filler(value);
      Room(numBits);
      if required != before {
        blocks := if required < before then blocks[..required] else blocks + seq(required - before, _ => filler);
      }
      if value && n > numBits && numBits % BITS != 0 {
        Room(n);
        blocks := blocks[before - 1 := Or(blocks[before - 1], Shl(filler, numBits % BITS))];
      }
      assert blocks == Resized(was, num, n, value);
      numBits := n;
      ResizedBits(was, num, n, value);
      ZeroUnusedBits();
    }

    /** Appends the 64 bits of a word. */
    method Append(block: nat)
      requires Valid() && IsWord(block)
      modifies this
      ensures Valid() && Bits() == old(Bits()) + WordBits(block)
      ensures Value(Bits()) == Value(old(Bits())) + Pow2(old(numBits)) * block
    {
      hide Bit, Pow2, IsWord, Or, Shl, Shr, Value;
      ghost var was, bits, num := blocks, Bits(), numBits;
      ValueAppended(bits, block);
      Room(numBits);
      var excess := numBits % BITS;
      if excess != 0 {
        blocks := blocks + [Shr(block, BITS - excess)];
        blocks := blocks[|blocks| - 2 := Or(blocks[|blocks| - 2], Shl(block, excess))];
      } else {
        blocks := blocks + [block];
      }
      numBits := numBits + BITS;
      assert blocks == Appended(was, num, block);
      AppendedWords(was, num, block);
      AppendedUnused(was, num, block);
      forall i: nat | i < num + BITS ensures BitAt(blocks, i) == (bits + WordBits(block))[i] {
        WordBitsAt(was, num, block, i);
      }
      assert Bits() == bits + WordBits(block);
    }

    /** Turns every bit over. */
    method Flip()
      requires Valid()
      modifies this`blocks
      ensures Valid() && Bits() == Inverted(old(Bits()))
      ensures forall i :: 0 <= i < numBits ==> Bits()[i] == !old(Bits())[i]
    {
      hide Bit, Pow2, IsWord, Trimmed, LowMask, Not;
      ghost var was, bits := blocks, Bits();
      Room(numBits);
      for k := 0 to |blocks|
        invariant |blocks| == |was| && forall j :: 0 <= j < |was| ==> blocks[j] == if j < k then Not(was[j]) else was[j]
      {
        blocks := blocks[k := Not(blocks[k])];
      }
      forall k | 0 <= k < |was| ensures IsWord(Not(was[k])) { WordsStay(was[k], was[k], 0); }
      ghost var bits' := Inverted(bits);
      forall i: nat | i < numBits ensures BitAt(blocks, i) == bits'[i] {
        WordOf(i);
        NotBit(was[i / BITS], i % BITS);
      }
      TrimmedBits(blocks, numBits, bits');
      ZeroUnusedBits();
    }

    /** The first set bit in word number k or a later one. */
    method FindFrom(k: nat) returns (p: int)
      requires Valid()
      ensures IsFirstFrom(Bits(), BITS * k, p)
    {
      hide Bit, Pow2, UnusedZero;
      Room(numBits);
      var i := k;
      while i < |blocks| && blocks[i] == 0
        invariant k <= i && forall j: nat :: BITS * k <= j < BITS * i && j < numBits ==> !Bits()[j]
        decreases |blocks| - i
      {
        forall j: nat | BITS * i <= j < BITS * (i + 1) && j < numBits ensures !Bits()[j] {
          WordOf(j);
          ZeroWord(blocks, j);
        }
        i := i + 1;
      }
      if i >= |blocks| { return NPOS; }
      var log := LowestBit(blocks[i]);
      p := i * BITS + log;
      LowestAt(blocks, numBits, i, log);
    }

    method FindFirst() returns (p: int)
      requires Valid()
      ensures IsFirstFrom(Bits(), 0, p)
    {
      p := FindFrom(0);
    }

    /** The first set bit behind position i. */
    method FindNext(i: nat) returns (p: int)
      requires Valid()
      ensures IsFirstFrom(Bits(), i + 1, p)
    {
      hide Bit, Pow2, UnusedZero, LowMask, And;
      Room(numBits);
      if numBits == 0 || i >= numBits - 1 { return NPOS; }
      var next := i + 1;
      var bi := next / BITS;
      WordOf(next);
      HighPart(blocks[bi], next % BITS);
      var block := And(blocks[bi], Shl(Not(0), next % BITS));
      if block != 0 {
        var log := LowestBit(block);
        p := bi * BITS + log;
        HighLowest(blocks, numBits, next, log);
      } else {
        p := FindFrom(bi + 1);
        HighEmpty(blocks, numBits, next);
      }
    }
  }
}
