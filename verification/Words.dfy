/** Machine words as numbers: what each operation on a word does to its bits. */
module Words {
  import opened Arith
  import opened BitValues
  import Tool

  const BITS := 64

  predicate IsWord(v: nat) { v < Pow2(BITS) }

  // ----- the operations

  function And(a: nat, b: nat): nat {
    if a == 0 || b == 0 then 0 else 2 * And(a / 2, b / 2) + if a % 2 == 1 && b % 2 == 1 then 1 else 0
  }

  function Or(a: nat, b: nat): nat {
    if a == 0 then b
    else if b == 0 then a
    else 2 * Or(a / 2, b / 2) + if a % 2 == 1 || b % 2 == 1 then 1 else 0
  }

  function Not(a: nat): nat
    requires IsWord(a)
  {
    Pow2(BITS) - 1 - a
  }

  /** Shifting left drops what leaves the word. */
  function Shl(a: nat, r: nat): nat { a * Pow2(r) % Pow2(BITS) }
  function Shr(a: nat, r: nat): nat {
    QuotientNat(a, Pow2(r));
    a / Pow2(r)
  }

  // ----- bits from the lowest up

  lemma BitZero(v: nat)
    ensures Bit(v, 0) <==> v % 2 == 1
  {}

  lemma BitUp(v: nat, i: nat)
    ensures Bit(v, i + 1) <==> Bit(v / 2, i)
  {
    var p := Pow2(i);
    var q, r := v / 2 / p, v / 2 % p;
    assert v / 2 == q * p + r;
    assert v == q * (2 * p) + (2 * r + v % 2);
    DivModUnique(v, 2 * p, q, 2 * r + v % 2);
  }

  lemma {:induction false} BitOfZero(i: nat)
    ensures !Bit(0, i)
  {
    hide Bit;
    if i == 0 { BitZero(0); } else { BitUp(0, i - 1); BitOfZero(i - 1); }
  }

  lemma HalfBelow(v: nat, k: nat)
    requires v < Pow2(k) && k > 0
    ensures v / 2 < Pow2(k - 1)
  {}

  lemma {:induction false} NoBitAbove(v: nat, k: nat, i: nat)
    requires v < Pow2(k)
    ensures !Bit(v, k + i)
    decreases k
  {
    hide Bit;
    if k == 0 {
      BitOfZero(i);
    } else {
      HalfBelow(v, k);
      BitUp(v, k - 1 + i);
      NoBitAbove(v / 2, k - 1, i);
    }
  }

  lemma Pow2Monotone(k: nat, i: nat)
    ensures Pow2(k) <= Pow2(k + i)
  {
    if i > 0 { Pow2Grows(k, k + i); }
  }

  // ----- bits of the results

  lemma AndHalf(a: nat, b: nat)
    ensures And(a, b) / 2 == And(a / 2, b / 2)
    ensures And(a, b) % 2 == if a % 2 == 1 && b % 2 == 1 then 1 else 0
  {}

  lemma OrHalf(a: nat, b: nat)
    ensures Or(a, b) / 2 == Or(a / 2, b / 2)
    ensures Or(a, b) % 2 == if a % 2 == 1 || b % 2 == 1 then 1 else 0
  {}

  lemma {:induction false} AndBit(a: nat, b: nat, i: nat)
    ensures Bit(And(a, b), i) <==> Bit(a, i) && Bit(b, i)
    decreases i
  {
    hide Bit, And;
    AndHalf(a, b);
    if i == 0 {
      BitZero(a); BitZero(b); BitZero(And(a, b));
    } else {
      BitUp(a, i - 1); BitUp(b, i - 1); BitUp(And(a, b), i - 1);
      AndBit(a / 2, b / 2, i - 1);
    }
  }

  lemma {:induction false} OrBit(a: nat, b: nat, i: nat)
    ensures Bit(Or(a, b), i) <==> Bit(a, i) || Bit(b, i)
    decreases i
  {
    hide Bit, Or;
    OrHalf(a, b);
    if i == 0 {
      BitZero(a); BitZero(b); BitZero(Or(a, b));
    } else {
      BitUp(a, i - 1); BitUp(b, i - 1); BitUp(Or(a, b), i - 1);
      OrBit(a / 2, b / 2, i - 1);
    }
  }

  lemma {:induction false} OrBelow(a: nat, b: nat, k: nat)
    requires a < Pow2(k) && b < Pow2(k)
    ensures Or(a, b) < Pow2(k)
    decreases k
  {
    if k > 0 && a > 0 && b > 0 { OrBelow(a / 2, b / 2, k - 1); }
  }

  lemma {:induction false} AndBelow(a: nat, b: nat)
    ensures And(a, b) <= a && And(a, b) <= b
  {
    if a > 0 && b > 0 { AndBelow(a / 2, b / 2); }
  }

  /** In the complement of k bits every one of them is turned over. */
  lemma {:induction false} ComplementBit(v: nat, k: nat, i: nat)
    requires v < Pow2(k) && i < k
    ensures Bit(Pow2(k) - 1 - v, i) <==> !Bit(v, i)
    decreases k
  {
    hide Bit;
    var w := Pow2(k) - 1 - v;
    assert Pow2(k) == 2 * Pow2(k - 1);
    assert w / 2 == Pow2(k - 1) - 1 - v / 2 && w % 2 == 1 - v % 2;
    if i == 0 {
      BitZero(v); BitZero(w);
    } else {
      BitUp(v, i - 1); BitUp(w, i - 1);
      ComplementBit(v / 2, k - 1, i - 1);
    }
  }

  lemma {:induction false} ModBit(v: nat, k: nat, i: nat)
    requires i < k
    ensures Bit(v % Pow2(k), i) <==> Bit(v, i)
    decreases k
  {
    hide Bit;
    ModHalf(v, Pow2(k - 1));
    var w := v % Pow2(k);
    if i == 0 {
      BitZero(v); BitZero(w);
    } else {
      BitUp(v, i - 1); BitUp(w, i - 1);
      ModBit(v / 2, k - 1, i - 1);
    }
  }

  lemma ModHalf(v: nat, p: nat)
    requires p > 0
    ensures v % (2 * p) / 2 == v / 2 % p && v % (2 * p) % 2 == v % 2
  {
    var q, r := v / 2 / p, v / 2 % p;
    assert v / 2 == q * p + r;
    assert v == q * (2 * p) + (2 * r + v % 2);
    DivModUnique(v, 2 * p, q, 2 * r + v % 2);
  }

  lemma {:induction false} TimesBit(v: nat, r: nat, i: nat)
    ensures Bit(v * Pow2(r), i) <==> i >= r && Bit(v, i - r)
    decreases r
  {
    hide Bit;
    if r > 0 {
      var w := v * Pow2(r - 1);
      DoubledProduct(v, r);
      if i == 0 {
        BitZero(2 * w);
      } else {
        BitUp(2 * w, i - 1);
        TimesBit(v, r - 1, i - 1);
      }
    }
  }

  lemma DoubledProduct(v: nat, r: nat)
    requires r > 0
    ensures v * Pow2(r) == 2 * (v * Pow2(r - 1))
  {
    assert Pow2(r) == 2 * Pow2(r - 1);
  }

  lemma {:induction false} ShrBit(v: nat, r: nat, i: nat)
    ensures Bit(Shr(v, r), i) <==> Bit(v, i + r)
    decreases r
  {
    hide Bit;
    if r > 0 {
      HalvedQuotient(v, r);
      BitUp(v, i + r - 1);
      ShrBit(v / 2, r - 1, i);
    }
  }

  lemma HalvedQuotient(v: nat, r: nat)
    requires r > 0
    ensures Shr(v, r) == Shr(v / 2, r - 1)
  {
    var p := Pow2(r - 1);
    var q, m := v / 2 / p, v / 2 % p;
    assert v / 2 == q * p + m;
    assert v == q * (2 * p) + (2 * m + v % 2);
    DivModUnique(v, 2 * p, q, 2 * m + v % 2);
  }

  lemma ShlBit(v: nat, r: nat, i: nat)
    requires i < BITS
    ensures Bit(Shl(v, r), i) <==> i >= r && Bit(v, i - r)
  {
    hide Bit;
    ModBit(v * Pow2(r), BITS, i);
    TimesBit(v, r, i);
  }

  lemma NotBit(v: nat, i: nat)
    requires IsWord(v) && i < BITS
    ensures Bit(Not(v), i) <==> !Bit(v, i)
  {
    ComplementBit(v, BITS, i);
  }

  lemma WordsStay(a: nat, b: nat, r: nat)
    requires IsWord(a) && IsWord(b)
    ensures IsWord(And(a, b)) && IsWord(Or(a, b)) && IsWord(Not(a)) && IsWord(Shl(a, r)) && IsWord(Shr(a, r))
  {
    hide And, Or;
    AndBelow(a, b);
    OrBelow(a, b, BITS);
    QuotientSmaller(a, Pow2(r));
  }

  lemma QuotientSmaller(a: nat, p: nat)
    requires p > 0
    ensures a / p <= a
  {
    assert a == a / p * p + a % p;
    if a / p > a { MulLe(1, p, a / p); }
  }

  // ----- the lowest bit

  /** Position k holds the lowest set bit of v. */
  ghost predicate IsLowest(v: nat, k: nat) { Bit(v, k) && forall i: nat :: i < k ==> !Bit(v, i) }

  /** The lowest set bit, isolated, is a power of two. */
  lemma {:induction false} LowestIsolated(v: nat) returns (k: nat)
    requires v > 0
    ensures v - And(v, v - 1) == Pow2(k) && IsLowest(v, k) && Pow2(k) <= v
  {
    hide Bit, And;
    AndHalf(v, v - 1);
    BitZero(v);
    if v % 2 == 1 {
      AndItself(v / 2);
      k := 0;
    } else {
      k := LowestIsolated(v / 2);
      assert (v - 1) / 2 == v / 2 - 1;
      k := k + 1;
      LowestUp(v, k - 1);
    }
  }

  lemma {:induction false} AndItself(v: nat)
    ensures And(v, v) == v
  {
    if v > 0 { AndItself(v / 2); }
  }

  lemma LowestUp(v: nat, k: nat)
    requires v % 2 == 0 && IsLowest(v / 2, k)
    ensures IsLowest(v, k + 1)
  {
    hide Bit;
    BitUp(v, k);
    forall i: nat | i < k + 1 ensures !Bit(v, i) {
      if i == 0 { BitZero(v); } else { BitUp(v, i - 1); }
    }
  }

  /** The position of the lowest set bit: isolates it and counts how often it can be halved. */
  method LowestBit(block: nat) returns (log: nat)
    requires block > 0 && IsWord(block)
    ensures IsLowest(block, log) && log < BITS
  {
    AndBelow(block, block - 1);
    var x := block - And(block, block - 1);
    ghost var k := LowestIsolated(block);
    log := 0;
    x := x / 2;
    while x != 0
      invariant log <= k && x == if log < k then Pow2(k - log - 1) else 0
      decreases k - log
    {
      log := log + 1;
      x := x / 2;
    }
    if k >= BITS { Pow2Monotone(BITS, k - BITS); }
  }

  // ----- single bits

  function Xor(a: nat, b: nat): nat { Tool.NatXor(a, b) }

  lemma {:induction false} XorBit(a: nat, b: nat, i: nat)
    ensures Bit(Xor(a, b), i) <==> Bit(a, i) != Bit(b, i)
    decreases i
  {
    hide Bit, Tool.NatXor;
    Tool.NatXorBits(a, b);
    if i == 0 {
      BitZero(a); BitZero(b); BitZero(Xor(a, b));
    } else {
      BitUp(a, i - 1); BitUp(b, i - 1); BitUp(Xor(a, b), i - 1);
      XorBit(a / 2, b / 2, i - 1);
    }
  }

  function BitMask(i: nat): nat { Shl(1, i) }

  lemma MaskBit(i: nat, b: nat)
    requires i < BITS && b < BITS
    ensures IsWord(1) && IsWord(BitMask(i)) && (Bit(BitMask(i), b) <==> b == i)
  {
    hide Bit, Shl;
    Pow2Grows(0, BITS);
    WordsStay(1, 0, i);
    ShlBit(1, i, b);
    BitZero(1);
    if b > i { NoBitAbove(1, 1, b - i - 1); }
  }

  /** A word that is not zero has a bit. */
  lemma SomeBit(v: nat)
    requires forall i: nat :: !Bit(v, i)
    ensures v == 0
  {
    if v > 0 { var k := LowestIsolated(v); }
  }

  /** Masking out one bit tells whether it is set. */
  lemma MaskTells(v: nat, i: nat)
    requires IsWord(v) && i < BITS
    ensures And(v, BitMask(i)) != 0 <==> Bit(v, i)
  {
    hide Bit, And, BitMask;
    var m := And(v, BitMask(i));
    MaskBit(i, i);
    AndBit(v, BitMask(i), i);
    BitOfZero(i);
    if !Bit(v, i) {
      forall b: nat ensures !Bit(m, b) {
        AndBit(v, BitMask(i), b);
        if b < BITS { MaskBit(i, b); } else { NoBitAbove(v, BITS, b - BITS); }
      }
      SomeBit(m);
    }
  }

  // ----- counting bits

  /** The number of set bits of a number; for bytes, the entries of the table. */
  function OnesOf(v: nat): nat { if v == 0 then 0 else OnesOf(v / 2) + v % 2 }

  /** Counting the lowest k bits and the others. */
  lemma {:induction false} OnesSplit(v: nat, k: nat)
    ensures OnesOf(v) == OnesOf(v % Pow2(k)) + OnesOf(Shr(v, k))
    decreases k
  {
    if k > 0 {
      ModHalf(v, Pow2(k - 1));
      HalvedQuotient(v, k);
      OnesSplit(v / 2, k - 1);
      OnesHalf(v);
      OnesHalf(v % Pow2(k));
    } else {
      assert OnesOf(0) == 0;
    }
  }

  lemma OnesHalf(v: nat)
    ensures OnesOf(v) == OnesOf(v / 2) + v % 2
  {}

  /** Adds up the table entries of the bytes of a word. */
  method CountWord(block: nat) returns (n: nat)
    ensures n == OnesOf(block)
  {
    hide OnesOf, Pow2;
    n := 0;
    var rest: nat := block;
    OnesOfNone();
    while rest != 0
      invariant n + OnesOf(rest) == OnesOf(block)
      decreases rest
    {
      OnesSplit(rest, 8);
      ByteShift(rest);
      n := n + OnesOf(rest % Pow2(8));
      rest := Shr(rest, 8);
    }
  }

  lemma OnesOfNone()
    ensures OnesOf(0) == 0
  {}

  lemma ByteShift(v: nat)
    requires v > 0
    ensures Pow2(8) == 256 && Shr(v, 8) < v
  {
    assert Pow2(8) == 256;
  }
}
