/** Small facts about products, quotients and powers of two. */
module Arith {

  function Min(a: int, b: int): int { if a <= b then a else b }

  function Max(a: int, b: int): int { if a >= b then a else b }

  lemma {:induction false} MulLe(a: nat, b: nat, c: nat)
    requires a <= b
    ensures a * c <= b * c
    decreases b - a
  {
    if a < b {
      MulLe(a, b - 1, c);
      assert b * c == (b - 1) * c + c;
    }
  }

  /** The last element of block i, of k blocks of equal length, is inside the k blocks. */
  lemma BlockEnds(k: nat, length: nat, i: nat, offset: nat)
    requires i < k && offset < length
    ensures i * length + offset < k * length
  {
    MulLe(i + 1, k, length);
    assert (i + 1) * length == i * length + length;
  }

  /** Quotient and remainder are unique. */
  lemma DivModUnique(a: nat, k: nat, q: nat, r: nat)
    requires k > 0 && r < k && a == q * k + r
    ensures a / k == q && a % k == r
  {
    var q', r' := a / k, a % k;
    assert a == q' * k + r';
    assert (q + 1) * k == q * k + k;
    assert (q' + 1) * k == q' * k + k;
    if q < q' {
      MulLe(q + 1, q', k);
    } else if q' < q {
      MulLe(q' + 1, q, k);
    }
  }

  /** Raising a number to the next multiple of k. */
  lemma RoundedUp(a: nat, k: nat)
    requires k > 0
    ensures (a + (k - a % k)) % k == 0
  {
    var q := a / k;
    assert a == q * k + a % k;
    assert (q + 1) * k == q * k + k;
    DivModUnique(a + (k - a % k), k, q + 1, 0);
  }

  lemma QuotientNat(a: nat, k: nat)
    requires k > 0
    ensures a / k >= 0
  {
    var q := a / k;
    var m := if q < 0 then -q else 0;
    MulLe(if m > 0 then 1 else 0, m, k);
    assert a == q * k + a % k;
  }

  lemma QuotientBelow(a: nat, k: nat, n: nat)
    requires k > 0 && a < n * k
    ensures a / k < n
  {
    var q := a / k;
    assert q * k <= a;
    if q >= n { MulLe(n, q, k); }
  }

  // ----- powers of two

  function Pow2(k: nat): (p: nat)
    ensures p > 0
  {
    if k == 0 then 1 else 2 * Pow2(k - 1)
  }

  lemma {:induction false} Pow2Add(j: nat, k: nat)
    ensures Pow2(j + k) == Pow2(j) * Pow2(k)
  {
    if j > 0 {
      Pow2Add(j - 1, k);
      assert Pow2(j + k) == 2 * Pow2(j - 1 + k);
      assert 2 * (Pow2(j - 1) * Pow2(k)) == 2 * Pow2(j - 1) * Pow2(k);
    }
  }

  lemma {:induction false} Pow2Grows(j: nat, k: nat)
    requires j < k
    ensures 2 * Pow2(j) <= Pow2(k)
    decreases k - j
  {
    if j + 1 < k { Pow2Grows(j, k - 1); }
  }

  // ----- multiples

  lemma MultipleOf(q: nat, k: nat)
    requires k > 0
    ensures q * k % k == 0 && q * k / k == q
  {
    DivModUnique(q * k, k, q, 0);
  }

  /** Rounding down and up to a multiple of k. */
  function FloorTo(a: nat, k: nat): (m: nat)
    requires k > 0
    ensures m <= a < m + k && m % k == 0
  {
    var q := a / k;
    assert a == q * k + a % k;
    MultipleOf(q, k);
    q * k
  }

  function CeilTo(a: nat, k: nat): (m: nat)
    requires k > 0
    ensures a <= m < a + k && m % k == 0
  {
    var q := a / k;
    assert a == q * k + a % k;
    MultipleOf(q, k);
    MultipleOf(q + 1, k);
    assert (q + 1) * k == q * k + k;
    if a % k == 0 then q * k else (q + 1) * k
  }

  /** Between two neighbouring multiples of k there is no third. */
  lemma NoMultipleBetween(a: nat, b: nat, k: nat)
    requires k > 0 && a % k == 0 && b % k == 0 && a < b
    ensures a + k <= b
  {
    var p, q := a / k, b / k;
    assert a == p * k && b == q * k;
    if q <= p { MulLe(q, p, k); }
    MulLe(p + 1, q, k);
    assert (p + 1) * k == p * k + k;
  }

  lemma SumOfMultiples(a: nat, b: nat, k: nat)
    requires k > 0 && a % k == 0 && b % k == 0
    ensures (a + b) % k == 0
    ensures b <= a ==> (a - b) % k == 0
  {
    var p, q := a / k, b / k;
    assert a == p * k && b == q * k;
    assert (p + q) * k == p * k + q * k;
    MultipleOf(p + q, k);
    if b <= a {
      assert (p + 1) * k == p * k + k;
      if p < q { MulLe(p + 1, q, k); }
      assert (p - q) * k == p * k - q * k;
      MultipleOf(p - q, k);
    }
  }

  lemma MultipleOfDouble(a: nat, k: nat)
    requires k > 0 && a % (2 * k) == 0
    ensures a % k == 0
  {
    var p := a / (2 * k);
    assert a == p * (2 * k) == (2 * p) * k;
    MultipleOf(2 * p, k);
  }

  lemma Pow2Divides(j: nat, k: nat)
    requires j <= k
    ensures Pow2(k) % Pow2(j) == 0
  {
    Pow2Add(k - j, j);
    MultipleOf(Pow2(k - j), Pow2(j));
  }

  /** The first exponent from j on whose power of two is at least len. */
  function LevelFor(len: nat, j: nat): (r: nat)
    decreases len - Pow2(j)
  {
    if Pow2(j) >= len then j else LevelFor(len, j + 1)
  }

  lemma {:induction false} LevelForIsLeast(len: nat, j: nat)
    ensures var r := LevelFor(len, j);
            r >= j && Pow2(r) >= len && (forall i :: j <= i < r ==> Pow2(i) < len)
    decreases len - Pow2(j)
  {
    if Pow2(j) < len { LevelForIsLeast(len, j + 1); }
  }
}
