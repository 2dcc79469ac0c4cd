/** The plaintext join of two tables, and what it is in terms of their records. */
module JxtJoin {
  import opened JxtSetup
  import opened Sequences
  import opened Tool

  type Lists = seq<seq<Bytes>>

  // ----- the plaintext join

  /** The join values of some postings, each once, in the order in which they come up first. */
  function Values(ps: seq<Posting>): seq<string> {
    if ps == [] then []
    else
      var front, v := ps[..|ps| - 1], ps[|ps| - 1].value;
      Values(front) + if Occurs(front, v) then [] else [v]
  }

  /** Every join value is listed, and listed once. */
  lemma {:induction false} ValuesExact(ps: seq<Posting>)
    ensures Distinct(Values(ps))
    ensures forall v :: v in Values(ps) <==> Occurs(ps, v)
  {
    if ps != [] {
      var front, last := ps[..|ps| - 1], ps[|ps| - 1];
      ValuesExact(front);
      assert ps == front + [last];
      forall v ensures v in Values(ps) <==> Occurs(ps, v) { OccursAppend(front, last, v); }
    }
  }

  /** For each of some join values that table 2 has as well: the lists of both tables. */
  function JoinOver(vs: seq<string>, ps: seq<Posting>, qs: seq<Posting>): Lists {
    if vs == [] then []
    else
      var v := vs[|vs| - 1];
      JoinOver(vs[..|vs| - 1], ps, qs) + if Occurs(qs, v) then [Group(ps, v), Group(qs, v)] else []
  }

  /** The join of two keywords, grouped by join value. */
  function GroupJoin(ps: seq<Posting>, qs: seq<Posting>): Lists { JoinOver(Values(ps), ps, qs) }

  /** The postings of a series; none if its keyword is not in the table. */
  function Partner(c: Crypto, t: Table, s: Series): seq<Posting>
    requires t.Valid() && s.column < t.columns
  {
    if s.keyword in t.reverseId then PostingsOf(c, t, s) else []
  }

  /** A number of copies of some lists. */
  function Copies(n: nat, lists: Lists): Lists {
    if n == 0 then [] else Copies(n - 1, lists) + lists
  }

  /** The plaintext joins of the first n series with s2, each repeated as often as its count says. */
  function RepeatedJoins(c: Crypto, t1: Table, t2: Table, series: seq<Series>, counts: seq<nat>, s2: Series,
                         n: nat): Lists
    requires t1.Valid() && t2.Valid() && s2.column < t2.columns && n <= |series| == |counts|
    requires forall i :: 0 <= i < |series| ==> IsSeries(t1, series[i])
  {
    if n == 0 then []
    else
      RepeatedJoins(c, t1, t2, series, counts, s2, n - 1)
      + Copies(counts[n - 1], GroupJoin(PostingsOf(c, t1, series[n - 1]), Partner(c, t2, s2)))
  }

  lemma NothingOccurs(v: string)
    ensures !Occurs([], v)
  {}

  // ----- in terms of the records

  ghost predicate HasValue(t: Table, s: Series, record: int, v: string) {
    0 <= record < |t.joinAttr| && s.column < |t.joinAttr[record]| && t.joinAttr[record][s.column] == v
  }

  /** Some record of the keyword has the join value in the column. */
  ghost predicate ValueOccurs(t: Table, s: Series, v: string) {
    && s.keyword in t.reverseId
    && exists i :: 0 <= i < |t.reverseId[s.keyword]| && HasValue(t, s, t.reverseId[s.keyword][i], v)
  }

  /** The positions of the keyword's records that have the value, in order. */
  ghost predicate IsAt(t: Table, s: Series, v: string, at: seq<nat>) {
    && s.keyword in t.reverseId
    && Rising(at)
    && forall i: nat :: i in at <==>
         i < |t.reverseId[s.keyword]| && HasValue(t, s, t.reverseId[s.keyword][i], v)
  }

  /** The list is the encrypted ids of those records, in order. */
  ghost predicate IsList(c: Crypto, t: Table, s: Series, v: string, at: seq<nat>, list: seq<Bytes>) {
    && IsAt(t, s, v, at) && |list| == |at| > 0
    && forall i :: 0 <= i < |at| ==>
         && at[i] < |t.reverseId[s.keyword]| && 0 <= t.reverseId[s.keyword][at[i]] < |t.id|
         && list[i] == c.enc(c.hash(K_AES + s.keyword), t.id[t.reverseId[s.keyword][at[i]]])
  }

  /** The two lists of a value; the first record with it in table 1 is the keyword's record number first. */
  ghost predicate IsPair(c: Crypto, t1: Table, s1: Series, t2: Table, s2: Series, v: string, first: nat,
                         list1: seq<Bytes>, list2: seq<Bytes>) {
    && (exists at :: IsList(c, t1, s1, v, at, list1) && at[0] == first)
    && exists at :: IsList(c, t2, s2, v, at, list2)
  }

  /** Lists number 2k and 2k + 1. */
  ghost predicate PairAt(lists: Lists, k: nat, list1: seq<Bytes>, list2: seq<Bytes>) {
    2 * k + 1 < |lists| && lists[2 * k] == list1 && lists[2 * k + 1] == list2
  }

  ghost predicate HoldsPair(c: Crypto, t1: Table, s1: Series, t2: Table, s2: Series, v: string, first: nat,
                            lists: Lists, k: nat) {
    exists list1, list2 :: PairAt(lists, k, list1, list2) && IsPair(c, t1, s1, t2, s2, v, first, list1, list2)
  }

  /** Pair number k belongs to vs[k]; each value that both keywords have comes once, in the order of the
      first records. */
  ghost predicate JoinsValues(c: Crypto, t1: Table, s1: Series, t2: Table, s2: Series, vs: seq<string>,
                              firsts: seq<nat>, lists: Lists) {
    && |lists| == 2 * |vs| == 2 * |firsts| && Distinct(vs) && Rising(firsts)
    && (forall v :: v in vs <==> ValueOccurs(t1, s1, v) && ValueOccurs(t2, s2, v))
    && forall k :: 0 <= k < |vs| ==> HoldsPair(c, t1, s1, t2, s2, vs[k], firsts[k], lists, k)
  }

  ghost predicate IsJoin(c: Crypto, t1: Table, s1: Series, t2: Table, s2: Series, lists: Lists) {
    exists vs, firsts :: JoinsValues(c, t1, s1, t2, s2, vs, firsts, lists)
  }

  /** All records a table lists for its keywords exist. */
  ghost predicate RecordsExist(t: Table) {
    forall keyword, i :: keyword in t.reverseId && 0 <= i < |t.reverseId[keyword]| ==>
      0 <= t.reverseId[keyword][i] < |t.id| && t.id[t.reverseId[keyword][i]] != ""
  }

  /** Part i is the join of series i, as often as its count says. */
  ghost predicate JoinPart(c: Crypto, t1: Table, s1: Series, t2: Table, s2: Series, count: nat, part: Lists) {
    exists join :: IsJoin(c, t1, s1, t2, s2, join) && IsConcat(seq(count, _ => join), part)
  }

  /** The joins of the first n series of table 1 with one of table 2, one after the other, each as often as
      its count says. */
  ghost predicate AreJoins(c: Crypto, t1: Table, t2: Table, series: seq<Series>, counts: seq<nat>, s2: Series, n: nat,
                           lists: Lists)
    requires n <= |series| == |counts|
  {
    exists parts: seq<Lists> ::
      && |parts| == n && IsConcat(parts, lists)
      && forall i :: 0 <= i < n ==> JoinPart(c, t1, series[i], t2, s2, counts[i], parts[i])
  }

  // ----- the positions of a value

  ghost function At(ps: seq<Posting>, v: string): seq<nat> {
    if ps == [] then []
    else At(ps[..|ps| - 1], v) + if ps[|ps| - 1].value == v then [|ps| - 1] else []
  }

  lemma {:induction false} AtExact(ps: seq<Posting>, v: string)
    ensures Rising(At(ps, v)) && forall i: nat :: i in At(ps, v) <==> i < |ps| && ps[i].value == v
  {
    if ps != [] {
      var front, n := ps[..|ps| - 1], |ps| - 1;
      AtExact(front, v);
      var at := At(front, v);
      forall k | 0 <= k < |at| ensures at[k] < n { assert at[k] in at; }
      forall i: nat ensures i in At(ps, v) <==> i < |ps| && ps[i].value == v {
        assert i in At(ps, v) <==> i in at || (i == n && ps[n].value == v);
      }
    }
  }

  lemma {:induction false} AtGroup(ps: seq<Posting>, v: string)
    ensures |Group(ps, v)| == |At(ps, v)|
    ensures forall k :: 0 <= k < |At(ps, v)| ==> At(ps, v)[k] < |ps| && Group(ps, v)[k] == ps[At(ps, v)[k]].ct
  {
    if ps != [] { AtGroup(ps[..|ps| - 1], v); }
  }

  /** The first position of a value that came up before stays. */
  lemma FirstStays(ps: seq<Posting>, v: string)
    requires ps != [] && At(ps[..|ps| - 1], v) != []
    ensures At(ps, v) != [] && At(ps, v)[0] == At(ps[..|ps| - 1], v)[0] < |ps| - 1
  {
    AtExact(ps[..|ps| - 1], v);
  }

  lemma NotAt(ps: seq<Posting>, v: string)
    ensures At(ps, v) == [] <==> !Occurs(ps, v)
  {
    AtExact(ps, v);
    FirstMember(At(ps, v));
    if i: nat :| i < |ps| && ps[i].value == v { assert i in At(ps, v); }
  }

  /** The values come in the order of their first positions. */
  lemma {:induction false} ValuesRise(ps: seq<Posting>)
    ensures forall v :: v in Values(ps) ==> At(ps, v) != []
    ensures Rising(Firsts(ps, Values(ps)))
  {
    hide Occurs, At;
    ValuesExact(ps);
    forall v | v in Values(ps) ensures At(ps, v) != [] { NotAt(ps, v); }
    if ps != [] {
      var front, v := ps[..|ps| - 1], ps[|ps| - 1].value;
      ValuesRise(front);
      forall i | 0 <= i < |Values(front)|
        ensures Firsts(ps, Values(ps))[i] == Firsts(front, Values(front))[i] < |ps| - 1
      {
        FirstStays(ps, Values(front)[i]);
      }
      if !Occurs(front, v) { NewFirst(ps); }
    }
  }

  lemma NewFirst(ps: seq<Posting>)
    requires ps != [] && !Occurs(ps[..|ps| - 1], ps[|ps| - 1].value)
    ensures At(ps, ps[|ps| - 1].value) == [|ps| - 1]
  {
    hide Occurs;
    NotAt(ps[..|ps| - 1], ps[|ps| - 1].value);
  }

  // ----- the values of both tables

  ghost function Shared(vs: seq<string>, qs: seq<Posting>): seq<string> {
    if vs == [] then []
    else Shared(vs[..|vs| - 1], qs) + if Occurs(qs, vs[|vs| - 1]) then [vs[|vs| - 1]] else []
  }

  /** The first positions of some values. */
  ghost function Firsts(ps: seq<Posting>, vs: seq<string>): seq<nat>
    requires forall v :: v in vs ==> At(ps, v) != []
  {
    seq(|vs|, k requires 0 <= k < |vs| => At(ps, vs[k])[0])
  }

  lemma {:induction false} SharedMembers(vs: seq<string>, qs: seq<Posting>)
    requires Distinct(vs)
    ensures Distinct(Shared(vs, qs)) && forall v :: v in Shared(vs, qs) <==> v in vs && Occurs(qs, v)
  {
    hide Occurs;
    if vs != [] {
      SharedMembers(vs[..|vs| - 1], qs);
      assert vs == vs[..|vs| - 1] + [vs[|vs| - 1]];
    }
  }

  /** Leaving out values keeps the order of the first positions. */
  lemma {:induction false} SharedRise(ps: seq<Posting>, vs: seq<string>, qs: seq<Posting>)
    requires Distinct(vs) && (forall v :: v in vs ==> At(ps, v) != []) && Rising(Firsts(ps, vs))
    ensures (forall v :: v in Shared(vs, qs) ==> v in vs) && Rising(Firsts(ps, Shared(vs, qs)))
  {
    hide Occurs, At;
    SharedMembers(vs, qs);
    if vs != [] {
      var front, last := vs[..|vs| - 1], vs[|vs| - 1];
      assert Firsts(ps, front) == Firsts(ps, vs)[..|front|];
      SharedRise(ps, front, qs);
      if Occurs(qs, last) {
        forall k | 0 <= k < |Shared(front, qs)| ensures Firsts(ps, Shared(front, qs))[k] < Firsts(ps, vs)[|front|] {
          assert Shared(front, qs)[k] in front;
          var i :| 0 <= i < |front| && front[i] == Shared(front, qs)[k];
          assert Firsts(ps, vs)[i] < Firsts(ps, vs)[|front|];
        }
        assert Firsts(ps, Shared(vs, qs)) == Firsts(ps, Shared(front, qs)) + [Firsts(ps, vs)[|front|]];
      } else {
        assert Shared(vs, qs) == Shared(front, qs);
      }
    }
  }

  lemma {:induction false} SharedLists(ps: seq<Posting>, vs: seq<string>, qs: seq<Posting>)
    ensures |JoinOver(vs, ps, qs)| == 2 * |Shared(vs, qs)|
    ensures forall k :: 0 <= k < |Shared(vs, qs)| ==>
              PairAt(JoinOver(vs, ps, qs), k, Group(ps, Shared(vs, qs)[k]), Group(qs, Shared(vs, qs)[k]))
  {
    hide Group, Occurs;
    if vs != [] { SharedLists(ps, vs[..|vs| - 1], qs); }
  }

  // ----- postings and records

  /** A posting of an existing record has the record's join attribute and encrypted id. */
  lemma PostingAt(c: Crypto, t: Table, s: Series, i: nat)
    requires t.Valid() && IsSeries(t, s) && RecordsExist(t) && i < |t.reverseId[s.keyword]|
    ensures var r := t.reverseId[s.keyword][i];
            && 0 <= r < |t.id| == |t.joinAttr| && |t.joinAttr[r]| > s.column
            && PostingsOf(c, t, s)[i] == Posting(t.joinAttr[r][s.column], c.enc(c.hash(K_AES + s.keyword), t.id[r]))
  {}

  lemma GroupIsList(c: Crypto, t: Table, s: Series, v: string)
    requires t.Valid() && IsSeries(t, s) && RecordsExist(t) && Occurs(PostingsOf(c, t, s), v)
    ensures IsList(c, t, s, v, At(PostingsOf(c, t, s), v), Group(PostingsOf(c, t, s), v))
  {
    hide PostingsOf, Group, At;
    var ps := PostingsOf(c, t, s);
    AtExact(ps, v);
    AtGroup(ps, v);
    var n :| 0 <= n < |ps| && ps[n].value == v;
    assert n in At(ps, v);
    forall i: nat | i < |ps| ensures HasValue(t, s, t.reverseId[s.keyword][i], v) <==> ps[i].value == v {
      PostingAt(c, t, s, i);
    }
    forall k | 0 <= k < |At(ps, v)|
      ensures 0 <= t.reverseId[s.keyword][At(ps, v)[k]] < |t.id|
      ensures Group(ps, v)[k] == c.enc(c.hash(K_AES + s.keyword), t.id[t.reverseId[s.keyword][At(ps, v)[k]]])
    {
      PostingAt(c, t, s, At(ps, v)[k]);
    }
  }

  lemma OccursInRecords(c: Crypto, t: Table, s: Series, v: string)
    requires t.Valid() && s.column < t.columns && RecordsExist(t)
    ensures Occurs(Partner(c, t, s), v) <==> ValueOccurs(t, s, v)
  {
    hide PostingsOf;
    if s.keyword in t.reverseId {
      var ps := PostingsOf(c, t, s);
      forall i: nat | i < |ps| ensures HasValue(t, s, t.reverseId[s.keyword][i], v) <==> ps[i].value == v {
        PostingAt(c, t, s, i);
      }
    }
  }

  /** The join grouped by value, in terms of the records of the two tables. */
  lemma GroupJoinIsJoin(c: Crypto, t1: Table, s1: Series, t2: Table, s2: Series)
    requires t1.Valid() && t2.Valid() && IsSeries(t1, s1) && s2.column < t2.columns
    requires RecordsExist(t1) && RecordsExist(t2)
    ensures IsJoin(c, t1, s1, t2, s2, GroupJoin(PostingsOf(c, t1, s1), Partner(c, t2, s2)))
  {
    hide PostingsOf, Group, At, Values, Occurs, Partner, JoinOver, Shared, IsPair, ValueOccurs, RecordsExist;
    hide PairAt;
    var ps, qs := PostingsOf(c, t1, s1), Partner(c, t2, s2);
    ValuesExact(ps);
    ValuesRise(ps);
    SharedMembers(Values(ps), qs);
    SharedRise(ps, Values(ps), qs);
    SharedLists(ps, Values(ps), qs);
    var vs := Shared(Values(ps), qs);
    forall v ensures v in vs <==> ValueOccurs(t1, s1, v) && ValueOccurs(t2, s2, v) {
      PartnerOf(c, t1, s1);
      OccursInRecords(c, t1, s1, v);
      OccursInRecords(c, t2, s2, v);
    }
    forall k | 0 <= k < |vs|
      ensures HoldsPair(c, t1, s1, t2, s2, vs[k], Firsts(ps, vs)[k], GroupJoin(ps, qs), k)
    {
      assert vs[k] in vs;
      PairOf(c, t1, s1, t2, s2, vs[k]);
      assert PairAt(GroupJoin(ps, qs), k, Group(ps, vs[k]), Group(qs, vs[k]));
    }
    assert JoinsValues(c, t1, s1, t2, s2, vs, Firsts(ps, vs), GroupJoin(ps, qs));
  }

  lemma PartnerOf(c: Crypto, t: Table, s: Series)
    requires t.Valid() && IsSeries(t, s)
    ensures Partner(c, t, s) == PostingsOf(c, t, s)
  {}

  lemma PairOf(c: Crypto, t1: Table, s1: Series, t2: Table, s2: Series, v: string)
    requires t1.Valid() && t2.Valid() && IsSeries(t1, s1) && s2.column < t2.columns
    requires RecordsExist(t1) && RecordsExist(t2)
    requires Occurs(PostingsOf(c, t1, s1), v) && Occurs(Partner(c, t2, s2), v)
    ensures var ps, qs := PostingsOf(c, t1, s1), Partner(c, t2, s2);
            At(ps, v) != [] && IsPair(c, t1, s1, t2, s2, v, At(ps, v)[0], Group(ps, v), Group(qs, v))
  {
    hide PostingsOf, Group, At, RecordsExist, IsAt;
    NothingOccurs(v);
    GroupIsList(c, t1, s1, v);
    GroupIsList(c, t2, s2, v);
  }

  lemma {:induction false} CopiesConcat(n: nat, lists: Lists)
    ensures IsConcat(seq(n, _ => lists), Copies(n, lists))
  {
    if n == 0 {
      ConcatNone<seq<Bytes>>();
      assert seq(0, _ => lists) == [];
    } else {
      CopiesConcat(n - 1, lists);
      ConcatMore(seq(n - 1, _ => lists), Copies(n - 1, lists), lists);
      assert seq(n, _ => lists) == seq(n - 1, _ => lists) + [lists];
    }
  }

  /** Repeated joins are joins in terms of the records. */
  lemma {:induction false} RepeatedAreJoins(c: Crypto, t1: Table, t2: Table, series: seq<Series>, counts: seq<nat>,
                                            s2: Series, n: nat)
    requires t1.Valid() && t2.Valid() && s2.column < t2.columns && n <= |series| == |counts|
    requires forall i :: 0 <= i < |series| ==> IsSeries(t1, series[i])
    requires RecordsExist(t1) && RecordsExist(t2)
    ensures AreJoins(c, t1, t2, series, counts, s2, n, RepeatedJoins(c, t1, t2, series, counts, s2, n))
  {
    hide GroupJoin, PostingsOf, Partner, IsConcat, Copies, RecordsExist, JoinPart;
    if n == 0 {
      ConcatNone<seq<Bytes>>();
      var none: seq<Lists> := [];
      assert |none| == 0 && IsConcat(none, RepeatedJoins(c, t1, t2, series, counts, s2, 0));
    } else {
      RepeatedAreJoins(c, t1, t2, series, counts, s2, n - 1);
      var before := RepeatedJoins(c, t1, t2, series, counts, s2, n - 1);
      var parts: seq<Lists> :|
        && |parts| == n - 1 && IsConcat(parts, before)
        && forall i :: 0 <= i < n - 1 ==> JoinPart(c, t1, series[i], t2, s2, counts[i], parts[i]);
      var part := Copies(counts[n - 1], GroupJoin(PostingsOf(c, t1, series[n - 1]), Partner(c, t2, s2)));
      CopiesAreJoin(c, t1, series[n - 1], t2, s2, counts[n - 1]);
      ConcatMore(parts, before, part);
      var parts' := parts + [part];
      assert |parts'| == n && IsConcat(parts', RepeatedJoins(c, t1, t2, series, counts, s2, n));
    }
  }

  lemma CopiesAreJoin(c: Crypto, t1: Table, s1: Series, t2: Table, s2: Series, count: nat)
    requires t1.Valid() && t2.Valid() && IsSeries(t1, s1) && s2.column < t2.columns
    requires RecordsExist(t1) && RecordsExist(t2)
    ensures JoinPart(c, t1, s1, t2, s2, count, Copies(count, GroupJoin(PostingsOf(c, t1, s1), Partner(c, t2, s2))))
  {
    hide GroupJoin, PostingsOf, Partner, IsConcat, Copies, RecordsExist, IsJoin;
    GroupJoinIsJoin(c, t1, s1, t2, s2);
    CopiesConcat(count, GroupJoin(PostingsOf(c, t1, s1), Partner(c, t2, s2)));
  }
}
