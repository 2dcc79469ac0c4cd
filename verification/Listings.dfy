/** Query answers of the segment tree: intervals of one position with its tokens. */
module Listings {
  import opened Arith
  import opened Tool

  type Token = Bytes

  datatype Interval = Interval(left: int, right: int, tokens: seq<Token>)

  /** The positions lo, ..., hi that have tokens and are in reached, each with all its tokens,
      in increasing order. */
  ghost function Listing(given: seq<seq<Token>>, reached: set<nat>, lo: int, hi: int): seq<Interval>
    requires 0 <= lo && hi < |given|
    decreases hi - lo
  {
    if lo > hi then []
    else Listing(given, reached, lo, hi - 1)
         + if given[hi] != [] && hi in reached then [Interval(hi, hi, given[hi])] else []
  }

  lemma {:induction false} ListingOfNone(given: seq<seq<Token>>, lo: int, hi: int)
    requires 0 <= lo && hi < |given|
    ensures Listing(given, {}, lo, hi) == []
    decreases hi - lo
  {
    if lo <= hi { ListingOfNone(given, lo, hi - 1); }
  }

  lemma ListingOfOne(given: seq<seq<Token>>, i: nat)
    requires i < |given|
    ensures Listing(given, {i}, i, i) == if given[i] != [] then [Interval(i, i, given[i])] else []
  {
    assert Listing(given, {i}, i, i - 1) == [];
  }

  lemma {:induction false} ListingAgrees(given: seq<seq<Token>>, s: set<nat>, t: set<nat>, lo: int, hi: int)
    requires 0 <= lo && hi < |given| && forall i :: lo <= i <= hi ==> (i in s <==> i in t)
    ensures Listing(given, s, lo, hi) == Listing(given, t, lo, hi)
    decreases hi - lo
  {
    if lo <= hi { ListingAgrees(given, s, t, lo, hi - 1); }
  }

  lemma {:induction false} ListingConcat(given: seq<seq<Token>>, s: set<nat>, lo: int, m: int, hi: int)
    requires 0 <= lo && lo - 1 <= m <= hi < |given|
    ensures Listing(given, s, lo, hi) == Listing(given, s, lo, m) + Listing(given, s, m + 1, hi)
    decreases hi - m
  {
    if m < hi { ListingConcat(given, s, lo, m, hi - 1); }
  }

  /** A listing is that of the positions up to m followed by that of the positions behind m. */
  lemma ListingAt(given: seq<seq<Token>>, s: set<nat>, lo: int, m: int, hi: int)
    requires 0 <= lo && hi < |given| && 0 <= m
    ensures Listing(given, s, lo, hi) == Listing(given, s, lo, Min(hi, m)) + Listing(given, s, Max(lo, m + 1), hi)
  {
    if lo <= m <= hi { ListingConcat(given, s, lo, m, hi); }
  }

  /** The listing of a span is the listing of its left half followed by that of its right half. */
  lemma ListingSplit(given: seq<seq<Token>>, left: set<nat>, right: set<nat>, start: nat, mid: nat, end: nat, l: int,
                     r: int,
                     found: seq<Interval>)
    requires start <= mid < end < |given| && l <= end && start <= r
    requires (forall i :: i in left ==> start <= i <= mid) && (forall i :: i in right ==> mid < i <= end)
    ensures found + Listing(given, left + right, Max(l, start), Min(r, end)) ==
            found + Listing(given, left, Max(l, start), Min(r, mid))
                + Listing(given, right, Max(l, mid + 1), Min(r, end))
  {
    hide Listing;
    var lo, hi := Max(l, start), Min(r, end);
    ListingAt(given, left + right, lo, mid, hi);
    assert Min(hi, mid) == Min(r, mid) && Max(lo, mid + 1) == Max(l, mid + 1);
    ListingAgrees(given, left, left + right, lo, Min(r, mid));
    ListingAgrees(given, right, left + right, Max(l, mid + 1), hi);
    ConcatAssoc(found, Listing(given, left, lo, Min(r, mid)), Listing(given, right, Max(l, mid + 1), hi));
  }

  lemma ConcatAssoc<T>(a: seq<T>, b: seq<T>, c: seq<T>)
    ensures a + (b + c) == a + b + c
  {}

  lemma {:induction false} ListingContents(given: seq<seq<Token>>, s: set<nat>, lo: int, hi: int)
    requires 0 <= lo && hi < |given|
    ensures forall x :: x in Listing(given, s, lo, hi) ==>
              lo <= x.left == x.right <= hi && x.tokens == given[x.left] != []
    ensures forall i: nat :: lo <= i <= hi && given[i] != [] && i in s ==>
              Interval(i, i, given[i]) in Listing(given, s, lo, hi)
    ensures forall a, b :: 0 <= a < b < |Listing(given, s, lo, hi)| ==>
              Listing(given, s, lo, hi)[a].left < Listing(given, s, lo, hi)[b].left
    decreases hi - lo
  {
    if lo <= hi { ListingContents(given, s, lo, hi - 1); }
  }
}
