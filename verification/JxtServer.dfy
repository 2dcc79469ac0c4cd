/** Searching the join index: opened entries of a keyword of table 1 name the lists of both tables
    that belong to one join value. */
module JxtServer {
  import opened Arith
  import opened JxtJoin
  import opened JxtSetup
  import opened Sequences
  import opened Tool

  // ----- the search

  /** What one opened entry contributes. */
  function Hit(e: Bytes, token1: Bytes, token2: Bytes, cset1: Cset, f2: nat -> bool, cset2: Cset): Lists {
    var key1, key2 := ToLong(XorBytes(token1, e)), ToLong(XorBytes(token2, e));
    if f2(key2) && key1 in cset1 && key2 in cset2 then [cset1[key1], cset2[key2]] else []
  }

  /** What the first n entries contribute. */
  function Hits(es: seq<Bytes>, tokens1: seq<Bytes>, tokens2: seq<Bytes>, n: nat, cset1: Cset, f2: nat -> bool,
                cset2: Cset): Lists
    requires n <= |es| && n <= |tokens1| && n <= |tokens2|
  {
    if n == 0 then []
    else
      Hits(es, tokens1, tokens2, n - 1, cset1, f2, cset2)
      + Hit(es[n - 1], tokens1[n - 1], tokens2[n - 1], cset1, f2, cset2)
  }

  /** What all tokens of the first n intervals contribute. */
  function HitsOfIntervals(tset: Tset, intervals: seq<seq<Bytes>>, tokens1: seq<seq<Bytes>>, tokens2: seq<seq<Bytes>>,
                           n: nat,
                           cset1: Cset, f2: nat -> bool, cset2: Cset): Lists
    requires n <= |tokens1| && n <= |tokens2|
  {
    if n == 0 then []
    else
      HitsOfIntervals(tset, intervals, tokens1, tokens2, n - 1, cset1, f2, cset2)
      + if n > |intervals| then []
        else HitsOfTokens(tset, intervals[n - 1], tokens1[n - 1], tokens2[n - 1], cset1, f2, cset2)
  }

  function HitsOfTokens(tset: Tset, ids: seq<Bytes>, tokens1: seq<Bytes>, tokens2: seq<Bytes>, cset1: Cset,
                        f2: nat -> bool, cset2: Cset): Lists {
    if ids == [] then []
    else
      HitsOfTokens(tset, ids[..|ids| - 1], tokens1, tokens2, cset1, f2, cset2)
      + HitsOfToken(tset, ids[|ids| - 1], tokens1, tokens2, cset1, f2, cset2)
  }

  /** An unknown token contributes nothing; surplus entries or join tokens are not looked at. */
  function HitsOfToken(tset: Tset, id: Bytes, tokens1: seq<Bytes>, tokens2: seq<Bytes>, cset1: Cset, f2: nat -> bool,
                       cset2: Cset): Lists {
    if id !in tset then []
    else Hits(tset[id], tokens1, tokens2, Min(|tset[id]|, Min(|tokens1|, |tokens2|)), cset1, f2, cset2)
  }

  // ----- the client

  function JoinToken1(c: Crypto, keyword1: string, column1: string, i: nat): Bytes {
    XorBytes(XorBytes(c.W(keyword1, 0), c.W(keyword1, i + 1)), c.JoinHash(column1))
  }

  function JoinToken2(c: Crypto, keyword1: string, keyword2: string, column2: string, i: nat): Bytes {
    XorBytes(XorBytes(c.W(keyword2, 0), c.W(keyword1, i + 1)), c.JoinHash(column2))
  }

  /** The join tokens for the first count entries of keyword 1. */
  method JoinTokens(c: Crypto, keyword1: string, column1: string, keyword2: string, column2: string, count: nat)
    returns (tokens1: seq<Bytes>, tokens2: seq<Bytes>)
    ensures |tokens1| == |tokens2| == count
    ensures forall i :: 0 <= i < count ==> tokens1[i] == JoinToken1(c, keyword1, column1, i)
    ensures forall i :: 0 <= i < count ==> tokens2[i] == JoinToken2(c, keyword1, keyword2, column2, i)
  {
    hide XorBytes, Crypto.W, Crypto.JoinHash;
    tokens1, tokens2 := [], [];
    for j := 0 to count
      invariant |tokens1| == |tokens2| == j
      invariant forall i :: 0 <= i < j ==> tokens1[i] == JoinToken1(c, keyword1, column1, i)
      invariant forall i :: 0 <= i < j ==> tokens2[i] == JoinToken2(c, keyword1, keyword2, column2, i)
    {
      tokens1 := tokens1 + [JoinToken1(c, keyword1, column1, j)];
      tokens2 := tokens2 + [JoinToken2(c, keyword1, keyword2, column2, j)];
    }
  }

  // ----- opening an entry

  /** The counter hash cancels: a join token and an unmasked entry give the key of the entry's value. */
  lemma CounterCancels(a: nat, w: nat, h: nat, y: nat)
    ensures NatXor(NatXor(NatXor(a, w), h), NatXor(w, y)) == NatXor(NatXor(a, y), h)
  {
    hide NatXor;
    NatXorSwap(a, w, h);
    var ah := NatXor(a, h);
    NatXorAssoc(ah, w, NatXor(w, y));
    NatXorAssoc(w, w, y);
    NatXorSelf(w);
    XorZero(y);
    NatXorSwap(a, h, y);
  }

  lemma XorZero(y: nat)
    ensures NatXor(0, y) == y
  {}

  /** Opening entry i with the token of a keyword and column gives their key of the entry's value,
      combined with the mask if the entry is masked. */
  lemma EntryOpens(c: Crypto, ps: seq<Posting>, keyword1: string, keyword: string, column: string, i: nat)
    requires c.Valid() && i < |ps|
    ensures var key := ToLong(XorBytes(JoinToken2(c, keyword1, keyword, column, i), Entry(c, ps, keyword1, i)));
            key == if Occurs(ps[..i], ps[i].value) then NatXor(c.XY(keyword, column, ps[i].value), ToLong(MASK))
                   else c.XY(keyword, column, ps[i].value)
  {
    hide NatXor, ToLong, XorBytes, Occurs, Crypto.W, Crypto.Y, Crypto.JoinHash;
    var a, w, h, y := c.W(keyword, 0), c.W(keyword1, i + 1), c.JoinHash(column), c.Y(ps[i].value);
    HashLengths(c, keyword, 0, column, ps[i].value);
    HashLengths(c, keyword1, i + 1, column, ps[i].value);
    ToLongXor(a, w);
    ToLongXor(XorBytes(a, w), h);
    ToLongXor(w, y);
    ToLongXor(a, y);
    ToLongXor(XorBytes(a, y), h);
    var token, plain := XorBytes(XorBytes(a, w), h), XorBytes(w, y);
    ToLongXor(token, plain);
    CounterCancels(ToLong(a), ToLong(w), ToLong(h), ToLong(y));
    ToLongXor(plain, MASK);
    ToLongXor(token, XorBytes(plain, MASK));
    NatXorAssoc(ToLong(token), ToLong(plain), ToLong(MASK));
  }

  lemma HashLengths(c: Crypto, keyword: string, n: nat, column: string, value: string)
    requires c.Valid()
    ensures |c.W(keyword, n)| == 32 && |c.JoinHash(column)| == 32 && |c.Y(value)| == 32 && |MASK| >= 8
  {}

  // ----- the join

  /** The number is the key of a join value that the table has. */
  ghost predicate IsKey(c: Crypto, t: Table, key: nat)
    requires t.Valid()
  {
    exists q, u :: OccursIn(c, t, q, u) && key == KeyOf(c, t, q, u)
  }

  /** What is assumed of the hash for one search: a key of table 2 that is asked for belongs to the
      value asked for, and an entry opened with its mask on names no pair of lists. */
  ghost predicate SearchApart(c: Crypto, t1: Table, s1: Series, t2: Table, s2: Series)
    requires t1.Valid() && t2.Valid() && IsSeries(t1, s1) && s2.column < t2.columns
  {
    && (forall v, q, u ::
          (OccursIn(c, t1, s1, v) && OccursIn(c, t2, q, u) && KeyOf(c, t2, s2, v) == KeyOf(c, t2, q, u)) ==>
            q == s2 && u == v)
    && forall v :: OccursIn(c, t1, s1, v) ==>
         !(IsKey(c, t1, NatXor(KeyOf(c, t1, s1, v), ToLong(MASK)))
           && IsKey(c, t2, NatXor(KeyOf(c, t2, s2, v), ToLong(MASK))))
  }

  lemma ListsHaveKeys(c: Crypto, t: Table, cset: Cset, key: nat)
    requires t.Valid() && CsetFull(c, t, cset)
    ensures key in cset <==> IsKey(c, t, key)
  {}

  /** Two tables that were set up, the filter of table 2, and the series of table 2 that is joined. */
  datatype Sides = Sides(c: Crypto, t1: Table, cset1: Cset, t2: Table, cset2: Cset, f2: nat -> bool, s2: Series) {

    ghost predicate Valid() {
      && c.Valid() && t1.Valid() && t2.Valid() && s2.column < t2.columns
      && CsetFull(c, t1, cset1) && CsetFull(c, t2, cset2) && forall key :: key in cset2 ==> f2(key)
    }

    ghost predicate Searchable(s1: Series)
      requires Valid()
    {
      IsSeries(t1, s1) && SearchApart(c, t1, s1, t2, s2)
    }

    /** The plaintext join of a series of table 1 with the series of table 2. */
    ghost function Join(s1: Series): Lists
      requires Valid() && IsSeries(t1, s1)
    {
      GroupJoin(PostingsOf(c, t1, s1), Partner(c, t2, s2))
    }

    /** The joins of some series, each as often as its interval has tokens. */
    ghost function Joins(series: seq<Series>, intervals: seq<seq<Bytes>>, n: nat): Lists
      requires Valid() && n <= |series| == |intervals| && forall i :: 0 <= i < |series| ==> IsSeries(t1, series[i])
    {
      RepeatedJoins(c, t1, t2, series, Lengths(intervals), s2, n)
    }

    /** The join tokens are those for the entries of s1. */
    ghost predicate TokensFor(s1: Series, tokens1: seq<Bytes>, tokens2: seq<Bytes>)
      requires Valid() && IsSeries(t1, s1)
    {
      && |tokens1| == |tokens2| == |PostingsOf(c, t1, s1)|
      && (forall i :: 0 <= i < |tokens1| ==> tokens1[i] == JoinToken1(c, s1.keyword, t1.Column(s1.column), i))
      && forall i :: 0 <= i < |tokens2| ==> tokens2[i] == JoinToken2(c, s1.keyword, s2.keyword, t2.Column(s2.column), i)
    }
  }

  /** The lists of one join value are found exactly if table 2 has the value. */
  lemma ListsOfValue(p: Sides, s1: Series, v: string)
    requires p.Valid() && p.Searchable(s1) && OccursIn(p.c, p.t1, s1, v)
    ensures var key1, key2, qs := KeyOf(p.c, p.t1, s1, v), KeyOf(p.c, p.t2, p.s2, v), Partner(p.c, p.t2, p.s2);
            && key1 in p.cset1 && p.cset1[key1] == Group(PostingsOf(p.c, p.t1, s1), v)
            && (key2 in p.cset2 <==> Occurs(qs, v))
            && (key2 in p.cset2 ==> p.cset2[key2] == Group(qs, v))
  {
    hide KeyOf, PostingsOf, Group, NatXor, ToLong, Occurs;
    var key2 := KeyOf(p.c, p.t2, p.s2, v);
    if key2 in p.cset2 {
      var q, u :| OccursIn(p.c, p.t2, q, u) && key2 == KeyOf(p.c, p.t2, q, u);
      assert q == p.s2 && u == v;
    }
    NothingOccurs(v);
    if p.s2.keyword in p.t2.reverseId && Occurs(PostingsOf(p.c, p.t2, p.s2), v) { assert OccursIn(p.c, p.t2, p.s2, v); }
  }

  /** What entry i of the token contributes: the lists of its value if it is the first with that
      value and table 2 has the value too, otherwise nothing. */
  lemma HitOfEntry(p: Sides, s1: Series, i: nat)
    requires p.Valid() && p.Searchable(s1) && i < |PostingsOf(p.c, p.t1, s1)|
    ensures var ps, qs := PostingsOf(p.c, p.t1, s1), Partner(p.c, p.t2, p.s2);
            var v := ps[i].value;
            Hit(Entry(p.c, ps, s1.keyword, i), JoinToken1(p.c, s1.keyword, p.t1.Column(s1.column), i),
                JoinToken2(p.c, s1.keyword, p.s2.keyword, p.t2.Column(p.s2.column), i), p.cset1, p.f2, p.cset2)
            == if !Occurs(ps[..i], v) && Occurs(qs, v) then [Group(ps, v), Group(qs, v)] else []
  {
    hide NatXor, ToLong, XorBytes, Occurs, Group, PostingsOf, Entry, CsetFull, Partner, Crypto.XY, Crypto.Valid;
    var ps := PostingsOf(p.c, p.t1, s1);
    var v := ps[i].value;
    InPostings(p.c, p.t1, s1, i);
    EntryOpens(p.c, ps, s1.keyword, s1.keyword, p.t1.Column(s1.column), i);
    EntryOpens(p.c, ps, s1.keyword, p.s2.keyword, p.t2.Column(p.s2.column), i);
    ListsOfValue(p, s1, v);
    ListsHaveKeys(p.c, p.t1, p.cset1, NatXor(KeyOf(p.c, p.t1, s1, v), ToLong(MASK)));
    ListsHaveKeys(p.c, p.t2, p.cset2, NatXor(KeyOf(p.c, p.t2, p.s2, v), ToLong(MASK)));
  }

  /** Entry i of the token, searched for with its join tokens, in the lists of the index. */
  lemma HitAt(p: Sides, s1: Series, es: seq<Bytes>, tokens1: seq<Bytes>, tokens2: seq<Bytes>, i: nat)
    requires p.Valid() && p.Searchable(s1) && p.TokensFor(s1, tokens1, tokens2)
    requires es == EntriesOf(p.c, p.t1, s1) && i < |es| == |tokens1| == |tokens2|
    ensures i < |PostingsOf(p.c, p.t1, s1)| == |es|
    ensures var ps, qs := PostingsOf(p.c, p.t1, s1), Partner(p.c, p.t2, p.s2);
            var v := ps[i].value;
            Hit(es[i], tokens1[i], tokens2[i], p.cset1, p.f2, p.cset2)
            == if !Occurs(ps[..i], v) && Occurs(qs, v) then [Group(ps, v), Group(qs, v)] else []
  {
    hide PostingsOf, Entry, Entries, JoinToken1, JoinToken2, Hit, CsetFull, SearchApart, Partner, Group, Occurs;
    hide Crypto.Valid;
    var ps := PostingsOf(p.c, p.t1, s1);
    EntriesAt(p.c, ps, s1.keyword, |ps|);
    HitOfEntry(p, s1, i);
  }

  /** The entries up to number n contribute the join over the values that came up so far. */
  lemma {:induction false} HitsAreJoin(p: Sides, s1: Series, es: seq<Bytes>, tokens1: seq<Bytes>, tokens2: seq<Bytes>,
                                       n: nat)
    requires p.Valid() && p.Searchable(s1) && p.TokensFor(s1, tokens1, tokens2)
    requires es == EntriesOf(p.c, p.t1, s1) && n <= |es| == |tokens1| == |tokens2| == |PostingsOf(p.c, p.t1, s1)|
    ensures Hits(es, tokens1, tokens2, n, p.cset1, p.f2, p.cset2) ==
            JoinOver(Values(PostingsOf(p.c, p.t1, s1)[..n]), PostingsOf(p.c, p.t1, s1), Partner(p.c, p.t2, p.s2))
  {
    hide PostingsOf, EntriesOf, Hit, CsetFull, Partner, Group, Occurs, SearchApart, Crypto.Valid, Sides.TokensFor;
    hide Values, JoinOver;
    JoinMore(PostingsOf(p.c, p.t1, s1), Partner(p.c, p.t2, p.s2), n);
    if n > 0 {
      HitsAreJoin(p, s1, es, tokens1, tokens2, n - 1);
      HitAt(p, s1, es, tokens1, tokens2, n - 1);
    }
  }

  /** One more posting adds the lists of its value if it comes up for the first time. */
  lemma JoinMore(ps: seq<Posting>, qs: seq<Posting>, n: nat)
    requires n <= |ps|
    ensures n == 0 ==> JoinOver(Values(ps[..n]), ps, qs) == []
    ensures n > 0 ==>
              JoinOver(Values(ps[..n]), ps, qs) ==
              JoinOver(Values(ps[..n - 1]), ps, qs) +
              var v := ps[n - 1].value;
              if !Occurs(ps[..n - 1], v) && Occurs(qs, v) then [Group(ps, v), Group(qs, v)] else []
  {
    hide Group, Occurs;
    if n > 0 {
      assert ps[..n][..n - 1] == ps[..n - 1];
      JoinOverAppend(Values(ps[..n - 1]), ps[n - 1].value, ps, qs);
    }
  }

  lemma JoinOverAppend(vs: seq<string>, v: string, ps: seq<Posting>, qs: seq<Posting>)
    ensures JoinOver(vs + [v], ps, qs) ==
            JoinOver(vs, ps, qs) + if Occurs(qs, v) then [Group(ps, v), Group(qs, v)] else []
    ensures JoinOver(vs + [], ps, qs) == JoinOver(vs, ps, qs)
  {
    assert (vs + [v])[..|vs|] == vs && vs + [] == vs;
  }

  lemma {:induction false} EntriesAt(c: Crypto, ps: seq<Posting>, keyword: string, n: nat)
    requires n <= |ps|
    ensures |Entries(c, ps, keyword, n)| == n
    ensures forall i :: 0 <= i < n ==> Entries(c, ps, keyword, n)[i] == Entry(c, ps, keyword, i)
  {
    if n > 0 { EntriesAt(c, ps, keyword, n - 1); }
  }

  /** One token, searched for with its join tokens, contributes the plaintext join. A keyword
      without records has no token in the index and no join. */
  lemma TokenIsJoin(p: Sides, s1: Series, tset: Tset, tokens1: seq<Bytes>, tokens2: seq<Bytes>)
    requires p.Valid() && p.Searchable(s1) && p.TokensFor(s1, tokens1, tokens2)
    requires TsetOk(p.c, p.t1, p.t1.reverseId.Keys, tset)
    ensures HitsOfToken(tset, TokenOf(p.c, p.t1, s1), tokens1, tokens2, p.cset1, p.f2, p.cset2) == p.Join(s1)
  {
    hide PostingsOf, Entry, Entries, JoinToken1, JoinToken2, CsetFull, SearchApart, Partner, Crypto.Valid;
    var ps := PostingsOf(p.c, p.t1, s1);
    if ps != [] {
      EntriesAt(p.c, ps, s1.keyword, |ps|);
      HitsAreJoin(p, s1, EntriesOf(p.c, p.t1, s1), tokens1, tokens2, |ps|);
      assert ps[..|ps|] == ps;
    }
  }

  function Lengths<T>(rows: seq<seq<T>>): seq<nat> { seq(|rows|, i requires 0 <= i < |rows| => |rows[i]|) }

  /** An interval of equal tokens contributes the join once for each of them. */
  lemma {:induction false} TokensAreCopies(p: Sides, s1: Series, tset: Tset, ids: seq<Bytes>, tokens1: seq<Bytes>,
                                           tokens2: seq<Bytes>)
    requires p.Valid() && p.Searchable(s1) && p.TokensFor(s1, tokens1, tokens2)
    requires TsetOk(p.c, p.t1, p.t1.reverseId.Keys, tset)
    requires forall k :: 0 <= k < |ids| ==> ids[k] == TokenOf(p.c, p.t1, s1)
    ensures HitsOfTokens(tset, ids, tokens1, tokens2, p.cset1, p.f2, p.cset2) == Copies(|ids|, p.Join(s1))
  {
    hide TokenOf, HitsOfToken, Sides.Join, Sides.Valid, Sides.Searchable, Sides.TokensFor, TsetOk;
    if ids != [] {
      TokensAreCopies(p, s1, tset, ids[..|ids| - 1], tokens1, tokens2);
      TokenIsJoin(p, s1, tset, tokens1, tokens2);
    }
  }

  /** Interval i carries tokens of series[i] only, and the join tokens made for them. */
  ghost predicate RangeFor(p: Sides, series: seq<Series>, tokens1: seq<seq<Bytes>>, tokens2: seq<seq<Bytes>>,
                           intervals: seq<seq<Bytes>>)
    requires p.Valid()
  {
    && |series| == |intervals| == |tokens1| == |tokens2|
    && (forall i :: 0 <= i < |series| ==> p.Searchable(series[i]) && p.TokensFor(series[i], tokens1[i], tokens2[i]))
    && forall i, k :: 0 <= i < |series| && 0 <= k < |intervals[i]| ==> intervals[i][k] == TokenOf(p.c, p.t1, series[i])
  }

  /** A range search gives, interval by interval, the plaintext join once for each token. */
  lemma {:induction false} IntervalsAreJoins(p: Sides, series: seq<Series>, tset: Tset, tokens1: seq<seq<Bytes>>,
                                             tokens2: seq<seq<Bytes>>, intervals: seq<seq<Bytes>>, n: nat)
    requires p.Valid() && RangeFor(p, series, tokens1, tokens2, intervals) && n <= |series|
    requires TsetOk(p.c, p.t1, p.t1.reverseId.Keys, tset)
    ensures HitsOfIntervals(tset, intervals, tokens1, tokens2, n, p.cset1, p.f2, p.cset2) ==
            p.Joins(series, intervals, n)
  {
    hide TokenOf, HitsOfTokens, Copies, GroupJoin, Sides.Valid, Sides.TokensFor, TsetOk;
    if n > 0 {
      IntervalsAreJoins(p, series, tset, tokens1, tokens2, intervals, n - 1);
      TokensAreCopies(p, series[n - 1], tset, intervals[n - 1], tokens1[n - 1], tokens2[n - 1]);
    }
  }

  // ----- the server

  class ServerJxtp {
    const tset: Tset
    const cset1: Cset
    const cset2: Cset
    /** The filter of table 2. */
    const f2: nat -> bool

    constructor (tset: Tset, cset1: Cset, f2: nat -> bool, cset2: Cset)
      ensures this.tset == tset && this.cset1 == cset1 && this.f2 == f2 && this.cset2 == cset2
    {
      this.tset, this.cset1, this.f2, this.cset2 := tset, cset1, f2, cset2;
    }

    /** The server holds what setting up the two sides gives. */
    ghost predicate Serves(p: Sides) {
      && p.Valid() && cset1 == p.cset1 && cset2 == p.cset2 && f2 == p.f2
      && TsetOk(p.c, p.t1, p.t1.reverseId.Keys, tset)
    }

    /** How many entries a token has. */
    method TsetTable1Cnt(token: Bytes) returns (count: nat)
      ensures count == if token in tset then |tset[token]| else 0
    {
      return if token in tset then |tset[token]| else 0;
    }

    /** The range part of a search: three nested loops over intervals, tokens and entries. With the
        tokens a client makes it is, interval by interval, the plaintext join once for each token. */
    method SearchRange(tokens1: seq<seq<Bytes>>, tokens2: seq<seq<Bytes>>, intervals: seq<seq<Bytes>>)
      returns (result: Lists)
      requires |tokens2| >= |tokens1|
      ensures result == HitsOfIntervals(tset, intervals, tokens1, tokens2, |tokens1|, cset1, f2, cset2)
      ensures forall p: Sides, series {:trigger RangeFor(p, series, tokens1, tokens2, intervals)} ::
                Serves(p) && RangeFor(p, series, tokens1, tokens2, intervals) ==>
                  result == p.Joins(series, intervals, |series|)
    {
      hide HitsOfToken;
      result := [];
      for idx := 0 to |tokens1|
        invariant result == HitsOfIntervals(tset, intervals, tokens1, tokens2, idx, cset1, f2, cset2)
      {
        if idx >= |intervals| { continue; }
        var ids := intervals[idx];
        ghost var before := result;
        for k := 0 to |ids|
          invariant result == before + HitsOfTokens(tset, ids[..k], tokens1[idx], tokens2[idx], cset1, f2, cset2)
        {
          assert ids[..k + 1][..k] == ids[..k];
          var hits := SearchToken(ids[k], tokens1[idx], tokens2[idx]);
          result := result + hits;
        }
        assert ids[..|ids|] == ids;
      }
      forall p: Sides, series | Serves(p) && RangeFor(p, series, tokens1, tokens2, intervals)
        ensures result == p.Joins(series, intervals, |series|)
      {
        IntervalsAreJoins(p, series, tset, tokens1, tokens2, intervals, |series|);
      }
    }

    /** The loop over the entries of one token. */
    method SearchToken(id: Bytes, tokens1: seq<Bytes>, tokens2: seq<Bytes>) returns (result: Lists)
      ensures result == HitsOfToken(tset, id, tokens1, tokens2, cset1, f2, cset2)
    {
      hide XorBytes, ToLong;
      result := [];
      if id !in tset { return; }
      var entries := tset[id];
      var i := 0;
      while i < |entries| && i < |tokens1| && i < |tokens2|
        invariant 0 <= i <= Min(|entries|, Min(|tokens1|, |tokens2|))
        invariant result == Hits(entries, tokens1, tokens2, i, cset1, f2, cset2)
      {
        var key2 := BytesToLong(XorBytes(tokens2[i], entries[i]));
        if f2(key2) {
          var key1 := BytesToLong(XorBytes(tokens1[i], entries[i]));
          if key1 in cset1 && key2 in cset2 {
            result := result + [cset1[key1]];
            result := result + [cset2[key2]];
          }
        }
        i := i + 1;
      }
    }
  }

  // ----- client and server together

  /** Interval i carries only tokens of series[i], which has records. */
  ghost predicate TokensOnly(p: Sides, series: seq<Series>, intervals: seq<seq<Bytes>>)
    requires p.Valid()
  {
    && |series| == |intervals|
    && (forall i :: 0 <= i < |series| ==> p.Searchable(series[i]) && p.t1.reverseId[series[i].keyword] != [])
    && forall i, k :: 0 <= i < |series| && 0 <= k < |intervals[i]| ==> intervals[i][k] == TokenOf(p.c, p.t1, series[i])
  }

  /** The join tokens for one series, as many as the server has entries. */
  method TokensOfSeries(server: ServerJxtp, c: Crypto, t1: Table, t2: Table, s1: Series, s2: Series, ghost p: Sides)
    returns (tokens1: seq<Bytes>, tokens2: seq<Bytes>)
    requires server.Serves(p) && p.c == c && p.t1 == t1 && p.t2 == t2 && p.s2 == s2
    requires IsSeries(t1, s1) && t1.reverseId[s1.keyword] != []
    ensures p.TokensFor(s1, tokens1, tokens2)
  {
    hide CsetFull, Entry, Entries, JoinToken1, JoinToken2, PostingsOf, Crypto.Valid;
    ghost var ps := PostingsOf(c, t1, s1);
    EntriesAt(c, ps, s1.keyword, |ps|);
    var count := server.TsetTable1Cnt(TokenOf(c, t1, s1));
    tokens1, tokens2 := JoinTokens(c, s1.keyword, t1.Column(s1.column), s2.keyword, t2.Column(s2.column), count);
  }

  /** A client makes join tokens for every interval and asks the server: the plaintext join of each
      series, once for each token of its interval. */
  method JoinByRange(setup1: SetupJxtp, setup2: SetupJxtp, f2: nat -> bool, series: seq<Series>,
                     intervals: seq<seq<Bytes>>, s2: Series, ghost p: Sides)
    returns (result: Lists)
    requires p == Sides(setup1.crypto, setup1.table, setup1.cset, setup2.table, setup2.cset, f2, s2) && p.Valid()
    requires TsetOk(setup1.crypto, setup1.table, setup1.table.reverseId.Keys, setup1.tset)
    requires TokensOnly(p, series, intervals)
    ensures result == p.Joins(series, intervals, |series|)
  {
    hide RepeatedJoins, HitsOfIntervals, Sides.TokensFor, TsetOk, Sides.Valid, SearchApart, TokenOf;
    var server := new ServerJxtp(setup1.tset, setup1.cset, f2, setup2.cset);
    var tokens1, tokens2 := [], [];
    for i := 0 to |series|
      invariant |tokens1| == |tokens2| == i
      invariant forall k :: 0 <= k < i ==> p.TokensFor(series[k], tokens1[k], tokens2[k])
    {
      var row1, row2 := TokensOfSeries(server, setup1.crypto, setup1.table, setup2.table, series[i], s2, p);
      tokens1, tokens2 := tokens1 + [row1], tokens2 + [row2];
    }
    result := server.SearchRange(tokens1, tokens2, intervals);
    assert RangeFor(p, series, tokens1, tokens2, intervals);
  }

  /** Searching for the one token of a series gives the plaintext join, grouped by value. */
  method JoinByToken(setup1: SetupJxtp, setup2: SetupJxtp, f2: nat -> bool, s1: Series, s2: Series, ghost p: Sides)
    returns (result: Lists)
    requires p == Sides(setup1.crypto, setup1.table, setup1.cset, setup2.table, setup2.cset, f2, s2) && p.Valid()
    requires TsetOk(setup1.crypto, setup1.table, setup1.table.reverseId.Keys, setup1.tset)
    requires p.Searchable(s1) && setup1.table.reverseId[s1.keyword] != []
    ensures result == p.Join(s1)
  {
    hide CsetFull, PostingsOf, Entry, Entries, SearchApart, TsetOk, Sides.Join, TokenOf;
    result := JoinByRange(setup1, setup2, f2, [s1], [[TokenOf(setup1.crypto, setup1.table, s1)]], s2, p);
    OneCopy(p, s1, TokenOf(setup1.crypto, setup1.table, s1));
  }

  lemma OneCopy(p: Sides, s1: Series, id: Bytes)
    requires p.Valid() && IsSeries(p.t1, s1)
    ensures p.Joins([s1], [[id]], 1) == p.Join(s1)
  {
    var join := p.Join(s1);
    assert Copies(0, join) == [] && Copies(1, join) == join;
    assert p.Joins([s1], [[id]], 0) == [];
  }

  /** What is assumed of hash and cipher when the two tables are set up. */
  ghost predicate SetupApart(c: Crypto, t: Table) { t.Valid() && KeysApart(c, t) && TokensApart(c, t) }

  /** Setting up both tables, filling the filter of table 2, and searching. It fails exactly if one
      of the tables lists a record that does not exist; otherwise the answer is, in terms of the records,
      the join of each series with the series of table 2, once for each token of its interval. */
  method SetUpAndJoin(c: Crypto, t1: Table, t2: Table, fill: seq<nat> -> (nat -> bool), series: seq<Series>,
                      counts: seq<nat>, s2: Series)
    returns (ok: bool, result: Lists)
    requires c.Valid() && SetupApart(c, t1) && SetupApart(c, t2) && s2.column < t2.columns
    requires forall keys, key: nat :: key in keys ==> fill(keys)(key)
    requires |series| == |counts|
    requires forall i :: 0 <= i < |series| ==> IsSeries(t1, series[i]) && t1.reverseId[series[i].keyword] != []
    requires forall i :: 0 <= i < |series| ==> SearchApart(c, t1, series[i], t2, s2)
    ensures ok <==> RecordsExist(t1) && RecordsExist(t2)
    ensures ok ==> AreJoins(c, t1, t2, series, counts, s2, |series|, result)
  {
    hide CsetFull, PostingsOf, Entry, Entries, SearchApart, TsetOk, TokenOf, KeysApart, TokensApart, Crypto.Valid;
    hide Sides.Join, RepeatedJoins, RecordsExist, AreJoins;
    RecordsExactlyOk(t1);
    RecordsExactlyOk(t2);
    var setup1 := new SetupJxtp(c, t1);
    var setup2 := new SetupJxtp(c, t2);
    var ok1 := setup1.Construct();
    var ok2 := setup2.Construct();
    ok, result := ok1 && ok2, [];
    if !ok { return; }
    var f2 := fill(setup2.xy);
    ghost var p := Sides(c, t1, setup1.cset, t2, setup2.cset, f2, s2);
    var intervals := seq(|series|, i requires 0 <= i < |series| => seq(counts[i], _ => TokenOf(c, t1, series[i])));
    result := JoinByRange(setup1, setup2, f2, series, intervals, s2, p);
    assert Lengths(intervals) == counts;
    RepeatedAreJoins(c, t1, t2, series, counts, s2, |series|);
  }

  lemma RecordsExactlyOk(t: Table)
    ensures (forall keyword :: keyword in t.reverseId ==> t.RecordsOk(keyword)) <==> RecordsExist(t)
  {}
}
