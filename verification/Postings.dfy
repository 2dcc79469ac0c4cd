/** Keyword maps: under the name of a cover stand the ids of all entries the cover has. */
module Postings {
  import opened Sequences

  type KeywordMap = map<string, seq<int>>

  /** A point with the ids of the records at it. */
  datatype Entry<P> = Entry(point: P, ids: seq<int>)

  /** The covers of an index, their names, and which points they have. */
  datatype Scheme<!C(!new), !P> = Scheme(valid: C -> bool, name: C -> string, has: (C, P) -> bool) {
    ghost predicate Injective() {
      forall c, d :: valid(c) && valid(d) && name(c) == name(d) ==> c == d
    }

    /** These are the names of the covers that have p. */
    ghost predicate NamesOf(p: P, names: set<string>) {
      forall key :: key in names <==> exists c :: valid(c) && has(c, p) && name(c) == key
    }

    /** The names of all covers. */
    ghost function AllNames(): iset<string> { iset c | valid(c) :: name(c) }

    /** The ids of the entries c has, in the order of the entries. */
    ghost function IdsIn(entries: seq<Entry<P>>, c: C): seq<int> {
      if entries == [] then []
      else
        var last := entries[|entries| - 1];
        IdsIn(entries[..|entries| - 1], c) + if has(c, last.point) then last.ids else []
    }

    /** On top of what base had, each cover's name lists exactly the ids of its entries. */
    ghost predicate Posted(base: KeywordMap, entries: seq<Entry<P>>, m: KeywordMap) {
      forall c :: valid(c) ==> Get(m, name(c)) == Get(base, name(c)) + IdsIn(entries, c)
    }

    /** While one more entry is being posted: the names still to do lack it. */
    ghost predicate PartlyPosted(base: KeywordMap, entries: seq<Entry<P>>, entry: Entry<P>, todo: set<string>,
                                 m: KeywordMap) {
      forall c :: valid(c) ==>
        Get(m, name(c)) ==
        Get(base, name(c)) + (IdsIn(entries, c) + if has(c, entry.point) && name(c) !in todo then entry.ids else [])
    }
  }

  function Get(m: KeywordMap, key: string): seq<int> { if key in m then m[key] else [] }

  /** Two maps agree on all keywords that are not among the names. */
  ghost predicate SameOutside(m: KeywordMap, m': KeywordMap, names: iset<string>) {
    forall key :: key !in names ==> (key in m' <==> key in m) && Get(m', key) == Get(m, key)
  }

  lemma {:induction false} IdsInHas<C(!new), P>(s: Scheme<C, P>, entries: seq<Entry<P>>, c: C, i: nat)
    requires i < |entries| && s.has(c, entries[i].point)
    ensures forall id :: id in entries[i].ids ==> id in s.IdsIn(entries, c)
  {
    if i < |entries| - 1 { IdsInHas(s, entries[..|entries| - 1], c, i); }
  }

  /** The entries at these positions are the ones c has, in order. */
  ghost predicate IsCovered<C(!new), P>(s: Scheme<C, P>, entries: seq<Entry<P>>, c: C, at: seq<nat>) {
    && Rising(at) && (forall k :: 0 <= k < |at| ==> at[k] < |entries|)
    && forall i: nat :: i in at <==> i < |entries| && s.has(c, entries[i].point)
  }

  ghost function IdsAtAll<P>(entries: seq<Entry<P>>, at: seq<nat>): seq<seq<int>>
    requires forall k :: 0 <= k < |at| ==> at[k] < |entries|
  {
    seq(|at|, k requires 0 <= k < |at| => entries[at[k]].ids)
  }

  /** The ids of a cover are those of the entries it has, entry after entry and each as it is. */
  lemma {:induction false} IdsInExact<C(!new), P>(s: Scheme<C, P>, entries: seq<Entry<P>>, c: C) returns (at: seq<nat>)
    ensures IsCovered(s, entries, c, at) && IsConcat(IdsAtAll(entries, at), s.IdsIn(entries, c))
  {
    hide IsConcat;
    if entries == [] {
      at := [];
      ConcatNone<int>();
      assert IdsAtAll(entries, at) == [];
    } else {
      var front, n := entries[..|entries| - 1], |entries| - 1;
      at := IdsInExact(s, front, c);
      forall k | 0 <= k < |at| ensures at[k] < n { assert at[k] in at; }
      assert IdsAtAll(entries, at) == IdsAtAll(front, at);
      if s.has(c, entries[n].point) {
        ConcatMore(IdsAtAll(front, at), s.IdsIn(front, c), entries[n].ids);
        var at' := at + [n];
        assert IdsAtAll(entries, at') == IdsAtAll(front, at) + [entries[n].ids];
        at := at';
      } else {
        assert s.IdsIn(entries, c) == s.IdsIn(front, c);
      }
    }
  }

  /** Appends the ids of one entry to the postings of each of its names; other names keep theirs. */
  method PostEntry<C(!new), P>(ghost s: Scheme<C, P>, ghost base: KeywordMap, ghost entries: seq<Entry<P>>,
                               entry: Entry<P>, names: set<string>, m: KeywordMap)
    returns (m': KeywordMap)
    requires s.Injective() && s.NamesOf(entry.point, names) && s.Posted(base, entries, m)
    ensures s.Posted(base, entries + [entry], m')
    ensures SameOutside(m, m', iset key | key in names)
  {
    hide Scheme.Posted, Scheme.PartlyPosted, Scheme.Injective;
    m' := m;
    var todo := names;
    NothingPosted(s, base, entries, entry, names, m);
    while todo != {}
      invariant todo <= names && s.PartlyPosted(base, entries, entry, todo, m')
      invariant SameOutside(m, m', iset key | key in names)
      decreases todo
    {
      var key :| key in todo;
      PostKey(s, base, entries, entry, todo, m', key);
      m' := m'[key := Get(m', key) + entry.ids];
      todo := todo - {key};
    }
    AllPosted(s, base, entries, entry, m');
  }

  lemma Regroup<T>(a: seq<T>, b: seq<T>, c: seq<T>)
    ensures a + (b + []) + c == a + (b + c)
  {}

  lemma PostKey<C(!new), P>(s: Scheme<C, P>, base: KeywordMap, entries: seq<Entry<P>>, entry: Entry<P>,
                            todo: set<string>, m: KeywordMap, key: string)
    requires s.Injective() && s.PartlyPosted(base, entries, entry, todo, m) && key in todo
    requires exists c :: s.valid(c) && s.has(c, entry.point) && s.name(c) == key
    ensures s.PartlyPosted(base, entries, entry, todo - {key}, m[key := Get(m, key) + entry.ids])
  {
    hide Scheme.IdsIn;
    var m' := m[key := Get(m, key) + entry.ids];
    forall c | s.valid(c)
      ensures Get(m', s.name(c)) == Get(base, s.name(c)) + (s.IdsIn(entries, c)
                + if s.has(c, entry.point) && s.name(c) !in todo - {key} then entry.ids else [])
    {
      if s.name(c) == key {
        assert s.has(c, entry.point);
        Regroup(Get(base, key), s.IdsIn(entries, c), entry.ids);
      }
    }
  }

  lemma NamesOfCovers<C(!new), P>(s: Scheme<C, P>, p: P, names: set<string>)
    requires s.NamesOf(p, names)
    ensures forall key :: key in names ==> key in s.AllNames()
  {}

  lemma NothingPosted<C(!new), P>(s: Scheme<C, P>, base: KeywordMap, entries: seq<Entry<P>>, entry: Entry<P>,
                                  names: set<string>, m: KeywordMap)
    requires s.NamesOf(entry.point, names) && s.Posted(base, entries, m)
    ensures s.PartlyPosted(base, entries, entry, names, m)
  {
    hide Scheme.IdsIn;
  }

  lemma AllPosted<C(!new), P>(s: Scheme<C, P>, base: KeywordMap, entries: seq<Entry<P>>, entry: Entry<P>, m: KeywordMap)
    requires s.PartlyPosted(base, entries, entry, {}, m)
    ensures s.Posted(base, entries + [entry], m)
  {
    var all := entries + [entry];
    assert all[..|all| - 1] == entries;
  }

  lemma SkipEmpty<C(!new), P>(s: Scheme<C, P>, base: KeywordMap, entries: seq<Entry<P>>, entry: Entry<P>, m: KeywordMap)
    requires s.Posted(base, entries, m) && entry.ids == []
    ensures s.Posted(base, entries + [entry], m)
  {
    var all := entries + [entry];
    assert all[..|all| - 1] == entries;
  }

  /** Appends the ids of one entry under a list of distinct names, in order. */
  method PostInOrder<C(!new), P>(ghost s: Scheme<C, P>, ghost base: KeywordMap, ghost entries: seq<Entry<P>>,
                                 entry: Entry<P>, keys: seq<string>, m: KeywordMap)
    returns (m': KeywordMap)
    requires s.Injective() && Distinct(keys) && s.NamesOf(entry.point, set key | key in keys)
    requires s.Posted(base, entries, m)
    ensures s.Posted(base, entries + [entry], m')
    ensures SameOutside(m, m', iset key | key in keys)
  {
    hide Scheme.Posted, Scheme.PartlyPosted, Scheme.Injective;
    m' := m;
    ghost var names := set key | key in keys;
    ghost var todo := names;
    NothingPosted(s, base, entries, entry, names, m);
    for i := 0 to |keys|
      invariant s.PartlyPosted(base, entries, entry, todo, m')
      invariant todo == set key | key in keys[i..]
      invariant SameOutside(m, m', iset key | key in keys)
    {
      assert keys[i..] == [keys[i]] + keys[i + 1..];
      assert keys[i] !in keys[i + 1..] && keys[i] in names;
      PostKey(s, base, entries, entry, todo, m', keys[i]);
      m' := m'[keys[i] := Get(m', keys[i]) + entry.ids];
      todo := todo - {keys[i]};
    }
    assert keys[|keys|..] == [] && todo == {};
    AllPosted(s, base, entries, entry, m');
  }

  /** The postings of some keywords, as a bag. */
  ghost function Bag(m: KeywordMap, keywords: seq<string>): multiset<int> {
    if keywords == [] then multiset{}
    else Bag(m, keywords[..|keywords| - 1]) + multiset(Get(m, keywords[|keywords| - 1]))
  }

  lemma BagOfNone(m: KeywordMap)
    ensures Bag(m, []) == multiset{}
  {}

  lemma BagOfOne(m: KeywordMap, key: string)
    ensures Bag(m, [key]) == multiset(Get(m, key))
  {
    assert [key][..0] == [];
  }

  /** It is the bag of all postings, keyword after keyword. */
  lemma {:induction false} BagExact(m: KeywordMap, keywords: seq<string>) returns (all: seq<int>)
    ensures IsConcat(seq(|keywords|, i requires 0 <= i < |keywords| => Get(m, keywords[i])), all)
    ensures Bag(m, keywords) == multiset(all)
  {
    hide IsConcat, Get;
    var lists := seq(|keywords|, i requires 0 <= i < |keywords| => Get(m, keywords[i]));
    if keywords == [] {
      all := [];
      ConcatNone<int>();
      assert lists == [];
    } else {
      var front, last := keywords[..|keywords| - 1], keywords[|keywords| - 1];
      var before := BagExact(m, front);
      var lists0 := seq(|front|, i requires 0 <= i < |front| => Get(m, front[i]));
      ConcatMore(lists0, before, Get(m, last));
      all := before + Get(m, last);
      assert lists == lists0 + [Get(m, last)];
    }
  }
}
