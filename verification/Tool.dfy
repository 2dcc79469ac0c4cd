/** The byte-string helpers every index shares: exclusive-or of integers, and the
    truncating exclusive-or of byte strings. */
module Tool {
  import opened Arith

  /** Exclusive-or of two non-negative integers, bit by bit. */
  function NatXor(a: nat, b: nat): nat {
    if a == 0 then b
    else if b == 0 then a
    else 2 * NatXor(a / 2, b / 2) + (a + b) % 2
  }

  lemma NatXorBits(a: nat, b: nat)
    ensures NatXor(a, b) / 2 == NatXor(a / 2, b / 2)
    ensures NatXor(a, b) % 2 == (a + b) % 2
  {}

  lemma ParityAssoc(a: nat, b: nat, c: nat, ab: nat, bc: nat, x: nat, y: nat)
    requires ab % 2 == (a + b) % 2 && bc % 2 == (b + c) % 2
    requires x % 2 == (ab + c) % 2 && y % 2 == (a + bc) % 2
    ensures x % 2 == y % 2
  {}

  lemma LowBitAssoc(a: nat, b: nat, c: nat)
    ensures NatXor(NatXor(a, b), c) % 2 == NatXor(a, NatXor(b, c)) % 2
  {
    var ab, bc := NatXor(a, b), NatXor(b, c);
    NatXorBits(a, b);
    NatXorBits(b, c);
    NatXorBits(ab, c);
    NatXorBits(a, bc);
    ParityAssoc(a, b, c, ab, bc, NatXor(ab, c), NatXor(a, bc));
  }

  lemma HighBitsAssoc(a: nat, b: nat, c: nat)
    requires NatXor(NatXor(a / 2, b / 2), c / 2) == NatXor(a / 2, NatXor(b / 2, c / 2))
    ensures NatXor(NatXor(a, b), c) / 2 == NatXor(a, NatXor(b, c)) / 2
  {
    NatXorBits(a, b);
    NatXorBits(b, c);
    NatXorBits(NatXor(a, b), c);
    NatXorBits(a, NatXor(b, c));
  }

  lemma SameBits(x: nat, y: nat)
    requires x / 2 == y / 2 && x % 2 == y % 2
    ensures x == y
  {}

  lemma {:induction false} NatXorAssoc(a: nat, b: nat, c: nat)
    ensures NatXor(NatXor(a, b), c) == NatXor(a, NatXor(b, c))
    decreases a + b + c
  {
    if a > 0 && b > 0 && c > 0 {
      NatXorAssoc(a / 2, b / 2, c / 2);
      HighBitsAssoc(a, b, c);
      LowBitAssoc(a, b, c);
      SameBits(NatXor(NatXor(a, b), c), NatXor(a, NatXor(b, c)));
    }
  }

  lemma {:induction false} NatXorSelf(b: nat)
    ensures NatXor(b, b) == 0
  {
    if b > 0 {
      NatXorSelf(b / 2);
    }
  }

  lemma NatXorUndo(a: nat, b: nat)
    ensures NatXor(NatXor(a, b), b) == a
  {
    NatXorAssoc(a, b, b);
    NatXorSelf(b);
  }

  lemma {:induction false} NatXorComm(a: nat, b: nat)
    ensures NatXor(a, b) == NatXor(b, a)
    decreases a + b
  {
    if a > 0 && b > 0 {
      NatXorComm(a / 2, b / 2);
    }
  }

  lemma NatXorSwap(a: nat, b: nat, c: nat)
    ensures NatXor(NatXor(a, b), c) == NatXor(NatXor(a, c), b)
  {
    NatXorAssoc(a, b, c);
    NatXorAssoc(a, c, b);
    NatXorComm(b, c);
  }

  lemma {:induction false} NatXorBelow(a: nat, b: nat, k: nat)
    requires a < Pow2(k) && b < Pow2(k)
    ensures NatXor(a, b) < Pow2(k)
    decreases k
  {
    if a > 0 && b > 0 {
      NatXorBelow(a / 2, b / 2, k - 1);
      NatXorBits(a, b);
    }
  }

  // ----- bytes

  type Byte = b: nat | b < 256
  type Bytes = seq<Byte>

  function XorByte(a: Byte, b: Byte): Byte {
    assert Pow2(8) == 256;
    NatXorBelow(a, b, 8);
    NatXor(a, b)
  }

  lemma XorByteLaws(a: Byte, b: Byte, c: Byte)
    ensures XorByte(XorByte(a, b), c) == XorByte(a, XorByte(b, c))
    ensures XorByte(a, b) == XorByte(b, a)
    ensures XorByte(a, a) == 0 && XorByte(a, 0) == a
  {
    NatXorAssoc(a, b, c);
    NatXorComm(a, b);
    NatXorSelf(a);
  }

  /** Byte-wise exclusive-or of the common prefix: the longer operand is cut. */
  function XorBytes(x: Bytes, y: Bytes): Bytes {
    seq(Min(|x|, |y|), i requires 0 <= i < |x| && i < |y| => XorByte(x[i], y[i]))
  }

  method Xor(x: Bytes, y: Bytes) returns (r: Bytes)
    ensures r == XorBytes(x, y)
  {
    r := [];
    for i := 0 to Min(|x|, |y|)
      invariant r == XorBytes(x, y)[..i]
    {
      r := r + [XorByte(x[i], y[i])];
    }
  }

  /** With m = (v ^ a) ^ b, combining m, a and b in any of the three orders used gives v back. */
  lemma MaskCancels(v: Byte, a: Byte, b: Byte)
    ensures var m := XorByte(XorByte(v, a), b);
            && XorByte(m, XorByte(a, b)) == v
            && XorByte(a, XorByte(m, b)) == v
            && XorByte(a, XorByte(b, m)) == v
  {
    var ab := XorByte(a, b);
    var m := XorByte(XorByte(v, a), b);
    XorByteLaws(v, a, b);
    assert m == XorByte(v, ab);
    XorByteLaws(v, ab, ab);
    XorByteLaws(ab, v, v);
    assert XorByte(m, ab) == v;
    XorByteLaws(m, ab, m);
    XorByteLaws(a, b, m);
    XorByteLaws(m, b, a);
  }

  /** Storing r = v ^ a ^ b beside a and b, in any of the three places, makes the
      exclusive-or of the three cells the common prefix of v, a and b. */
  lemma XorRestores(v: Bytes, a: Bytes, b: Bytes, r: Bytes)
    requires r == XorBytes(XorBytes(v, a), b)
    ensures |r| == Min(|v|, Min(|a|, |b|))
    ensures XorBytes(r, XorBytes(a, b)) == v[..|r|]
    ensures XorBytes(a, XorBytes(r, b)) == v[..|r|]
    ensures XorBytes(a, XorBytes(b, r)) == v[..|r|]
  {
    forall i | 0 <= i < |r|
      ensures XorBytes(r, XorBytes(a, b))[i] == v[i] && XorBytes(a, XorBytes(r, b))[i] == v[i]
      ensures XorBytes(a, XorBytes(b, r))[i] == v[i]
    {
      MaskCancels(v[i], a[i], b[i]);
    }
  }
}
