/** Decimal numerals, and why labels built from them can be read back in one way only. */
module Decimal {
  import opened Arith

  const DIGITS := "0123456789"

  function Digits(n: nat): (s: string)
    ensures |s| > 0
  {
    if n < 10 then [DIGITS[n]] else Digits(n / 10) + [DIGITS[n % 10]]
  }

  /** std::to_string of an integer. */
  function ToString(n: int): string {
    if n < 0 then "-" + Digits(-n) else Digits(n)
  }

  predicate AllDigits(s: string) { forall i :: 0 <= i < |s| ==> s[i] in DIGITS }

  ghost function Pow10(k: nat): (p: nat)
    ensures p > 0
  {
    if k == 0 then 1 else 10 * Pow10(k - 1)
  }

  lemma TenthDivided(n: nat, p: nat)
    requires p > 0
    ensures n / (10 * p) == n / 10 / p
  {
    var q := n / 10 / p;
    assert n / 10 == q * p + n / 10 % p;
    DivModUnique(n, 10 * p, q, 10 * (n / 10 % p) + n % 10);
  }

  /** Place i from the right has the digit for 10^i. */
  lemma {:induction false} DigitPlace(n: nat, i: nat)
    requires i < |Digits(n)|
    ensures Digits(n)[|Digits(n)| - 1 - i] == DIGITS[n / Pow10(i) % 10]
  {
    hide DIGITS;
    if i == 0 {
      assert n / Pow10(0) == n;
    } else {
      DigitPlace(n / 10, i - 1);
      TenthDivided(n, Pow10(i - 1));
    }
  }

  /** There are no more places than the number needs. */
  lemma {:induction false} DigitsNeeded(n: nat)
    ensures n < Pow10(|Digits(n)|) && (|Digits(n)| > 1 ==> Pow10(|Digits(n)| - 1) <= n)
  {
    assert Pow10(0) == 1;
    if n >= 10 { DigitsNeeded(n / 10); }
  }

  /** A string that cannot be mistaken for further digits of a numeral before it. */
  predicate Closed(s: string) { s == "" || s[0] !in DIGITS }

  lemma {:induction false} DigitsAreDigits(n: nat)
    ensures AllDigits(Digits(n))
  {
    if n >= 10 { DigitsAreDigits(n / 10); }
  }

  lemma DigitInjective(a: nat, b: nat)
    requires a < 10 && b < 10 && DIGITS[a] == DIGITS[b]
    ensures a == b
  {}

  lemma {:induction false} DigitsInjective(a: nat, b: nat)
    requires Digits(a) == Digits(b)
    ensures a == b
  {
    var s, t := Digits(a), Digits(b);
    assert s[|s| - 1] == DIGITS[a % 10] && t[|t| - 1] == DIGITS[b % 10];
    DigitInjective(a % 10, b % 10);
    if a >= 10 && b >= 10 {
      assert Digits(a / 10) == s[..|s| - 1] && Digits(b / 10) == t[..|t| - 1];
      DigitsInjective(a / 10, b / 10);
    } else {
      assert |s| == |t|;
    }
  }

  /** Digits cannot stand where a closed string begins. */
  lemma EmptyTogether(u: string, s: string, v: string, t: string)
    requires AllDigits(u) && AllDigits(v) && Closed(s) && Closed(t) && u + s == v + t
    requires u == "" || v == ""
    ensures u == v == "" && s == t
  {
    assert u + s == if u == "" then s else u + s;
    assert v + t == if v == "" then t else v + t;
  }

  lemma {:induction false} SplitUnique(u: string, s: string, v: string, t: string)
    requires AllDigits(u) && AllDigits(v) && Closed(s) && Closed(t) && u + s == v + t
    ensures u == v && s == t
  {
    if u == "" || v == "" {
      EmptyTogether(u, s, v, t);
    } else {
      assert u[0] == (u + s)[0] == v[0];
      assert u[1..] + s == (u + s)[1..] == v[1..] + t;
      SplitUnique(u[1..], s, v[1..], t);
      assert u == [u[0]] + u[1..] && v == [v[0]] + v[1..];
    }
  }

  /** A common prefix can be dropped. */
  lemma PrefixDropped(p: string, s: string, t: string)
    requires p + s == p + t
    ensures s == t
  {
    assert s == (p + s)[|p|..] && t == (p + t)[|p|..];
  }

  /** The first character tells a negative numeral from the others. */
  lemma FirstCharacter(n: int, s: string)
    ensures (ToString(n) + s)[0] == '-' <==> n < 0
  {
    if n >= 0 { DigitsAreDigits(n); }
  }

  lemma SameSign(a: int, s: string, b: int, t: string)
    requires ToString(a) + s == ToString(b) + t
    ensures a < 0 <==> b < 0
  {
    FirstCharacter(a, s);
    FirstCharacter(b, t);
  }

  lemma DigitsSplit(a: nat, s: string, b: nat, t: string)
    requires Closed(s) && Closed(t) && Digits(a) + s == Digits(b) + t
    ensures a == b && s == t
  {
    DigitsAreDigits(a);
    DigitsAreDigits(b);
    SplitUnique(Digits(a), s, Digits(b), t);
    DigitsInjective(a, b);
  }

  lemma NegativeSplit(a: int, s: string, b: int, t: string)
    requires Closed(s) && Closed(t) && a < 0 && b < 0 && ToString(a) + s == ToString(b) + t
    ensures a == b && s == t
  {
    hide Digits, Closed;
    assert ("-" + Digits(-a)) + s == "-" + (Digits(-a) + s);
    assert ("-" + Digits(-b)) + t == "-" + (Digits(-b) + t);
    PrefixDropped("-", Digits(-a) + s, Digits(-b) + t);
    DigitsSplit(-a, s, -b, t);
  }

  lemma NonNegativeSplit(a: int, s: string, b: int, t: string)
    requires Closed(s) && Closed(t) && a >= 0 && b >= 0 && ToString(a) + s == ToString(b) + t
    ensures a == b && s == t
  {
    DigitsSplit(a, s, b, t);
  }

  /** A numeral followed by a closed string determines the number and the rest. */
  lemma NumeralSplits(a: int, s: string, b: int, t: string)
    requires Closed(s) && Closed(t) && ToString(a) + s == ToString(b) + t
    ensures a == b && s == t
  {
    SameSign(a, s, b, t);
    if a < 0 {
      NegativeSplit(a, s, b, t);
    } else {
      NonNegativeSplit(a, s, b, t);
    }
  }

  /** Numbers written between fixed separators: seps[0] n0 seps[1] n1 ... */
  function Render(seps: seq<string>, ns: seq<int>): string
    requires |seps| == |ns| + 1
  {
    if ns == [] then seps[0] else seps[0] + (ToString(ns[0]) + Render(seps[1..], ns[1..]))
  }

  /** The separators after a number begin with something that is no digit; only the last may be empty. */
  ghost predicate Separated(seps: seq<string>) {
    forall i :: 1 <= i < |seps| ==> Closed(seps[i]) && (i + 1 < |seps| ==> seps[i] != "")
  }

  lemma {:induction false} RenderInjective(seps: seq<string>, ns: seq<int>, ms: seq<int>)
    requires |seps| == |ns| + 1 == |ms| + 1 && Separated(seps)
    requires Render(seps, ns) == Render(seps, ms)
    ensures ns == ms
  {
    if ns != [] {
      var s, t := Render(seps[1..], ns[1..]), Render(seps[1..], ms[1..]);
      PrefixDropped(seps[0], ToString(ns[0]) + s, ToString(ms[0]) + t);
      RenderClosed(seps[1..], ns[1..]);
      RenderClosed(seps[1..], ms[1..]);
      NumeralSplits(ns[0], s, ms[0], t);
      RenderInjective(seps[1..], ns[1..], ms[1..]);
      assert ns == [ns[0]] + ns[1..] && ms == [ms[0]] + ms[1..];
    }
  }

  lemma RenderClosed(seps: seq<string>, ns: seq<int>)
    requires |seps| == |ns| + 1 && Closed(seps[0]) && (|seps| > 1 ==> seps[0] != "")
    ensures Closed(Render(seps, ns))
  {}
}
