/** Bits, lowest first, and the numbers they stand for. */
module BitValues {
  import opened Arith

  /** The value of bits, lowest first. */
  function Value(bits: seq<bool>): nat {
    if bits == [] then 0
    else Value(bits[..|bits| - 1]) + if bits[|bits| - 1] then Pow2(|bits| - 1) else 0
  }

  lemma ValueAppend(bits: seq<bool>, b: bool)
    ensures Value(bits + [b]) == Value(bits) + if b then Pow2(|bits|) else 0
  {
    assert (bits + [b])[..|bits|] == bits;
  }

  lemma {:induction false} ValueBelow(bits: seq<bool>)
    ensures Value(bits) < Pow2(|bits|)
  {
    if bits != [] { ValueBelow(bits[..|bits| - 1]); }
  }

  /** All bits set is the largest value, and only that. */
  lemma {:induction false} ValueOfOnes(bits: seq<bool>)
    requires forall i :: 0 <= i < |bits| ==> bits[i]
    ensures Value(bits) == Pow2(|bits|) - 1
  {
    if bits != [] { ValueOfOnes(bits[..|bits| - 1]); }
  }

  lemma {:induction false} ValueOfZeros(bits: seq<bool>)
    requires forall i :: 0 <= i < |bits| ==> !bits[i]
    ensures Value(bits) == 0
  {
    if bits != [] { ValueOfZeros(bits[..|bits| - 1]); }
  }

  /** Bit number i of a number. */
  predicate Bit(v: nat, i: nat) { v / Pow2(i) % 2 == 1 }

  /** One more bit of a remainder. */
  lemma NextBit(v: nat, i: nat)
    ensures v % Pow2(i + 1) == v % Pow2(i) + if Bit(v, i) then Pow2(i) else 0
  {
    var p := Pow2(i);
    var q := v / p;
    assert v == q * p + v % p;
    assert q == 2 * (q / 2) + q % 2;
    assert q * p == (q / 2) * (2 * p) + (q % 2) * p;
    DivModUnique(v, 2 * p, q / 2, (if q % 2 == 1 then p else 0) + v % p);
  }

  /** The bits of a value are the bits it came from. */
  lemma {:induction false} BitOfValue(bits: seq<bool>, i: nat)
    requires i < |bits|
    ensures Bit(Value(bits), i) == bits[i]
  {
    var n := |bits| - 1;
    var front, p := bits[..n], Pow2(i);
    if i == n {
      ValueBelow(front);
      DivModUnique(Value(bits), p, if bits[n] then 1 else 0, Value(front));
    } else {
      BitOfValue(front, i);
      Pow2Add(n - i, i);
      AddEven(Value(front), p, Pow2(n - i - 1));
      assert Pow2(n) == (2 * Pow2(n - i - 1)) * p;
    }
  }

  lemma AddEven(a: nat, p: nat, m: nat)
    requires p > 0
    ensures (a + (2 * m) * p) / p % 2 == a / p % 2
  {
    var q, r := a / p, a % p;
    assert a + (2 * m) * p == (q + 2 * m) * p + r;
    DivModUnique(a + (2 * m) * p, p, q + 2 * m, r);
  }
}
