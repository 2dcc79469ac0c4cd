/** The encrypted multimap: every posting of a keyword is encrypted and stored under a label made
    of the keyword's token and the number of the posting. */
module Emm {
  import opened Decimal
  import opened Postings
  import opened Sequences

  datatype Option<T> = None | Some(value: T)

  /** The hash and the cipher. Strings stand for byte vectors. */
  datatype Crypto = Crypto(hash: string -> string, enc: (string, string) -> string,
                           dec: (string, string) -> Option<string>) {
    /** Decryption with the same key inverts encryption. */
    ghost predicate Inverse() { forall key, plain :: dec(key, enc(key, plain)) == Some(plain) }
  }

  // ----- reading a numeral back

  function ParseDigits(s: string): nat
    requires AllDigits(s)
  {
    if s == "" then 0 else 10 * ParseDigits(s[..|s| - 1]) + DigitValue(s[|s| - 1])
  }

  function DigitValue(c: char): nat {
    if c in DIGITS then c as int - '0' as int else 0
  }

  /** The number a numeral stands for; without digits the conversion throws. */
  function Stoi(s: string): Option<int> {
    if s != "" && AllDigits(s) then Some(ParseDigits(s))
    else if |s| > 1 && s[0] == '-' && AllDigits(s[1..]) then
      var n: int := ParseDigits(s[1..]);
      Some(-n)
    else None
  }

  lemma DigitRoundTrip(d: nat)
    requires d < 10
    ensures DIGITS[d] in DIGITS && DigitValue(DIGITS[d]) == d
  {
    assert DIGITS[d] as int == '0' as int + d;
  }

  lemma {:induction false} DigitsRoundTrip(n: nat)
    ensures AllDigits(Digits(n)) && ParseDigits(Digits(n)) == n
  {
    DigitsAreDigits(n);
    DigitRoundTrip(n % 10);
    if n >= 10 {
      DigitsRoundTrip(n / 10);
      assert Digits(n)[..|Digits(n)| - 1] == Digits(n / 10);
    } else {
      assert Digits(n)[..0] == "";
    }
  }

  lemma StoiOfToString(n: int)
    ensures Stoi(ToString(n)) == Some(n)
  {
    hide ParseDigits, Digits;
    var digits := Digits(if n < 0 then -n else n);
    DigitsRoundTrip(if n < 0 then -n else n);
    if n < 0 {
      var s := "-" + digits;
      assert ToString(n) == s && s[1..] == digits;
      assert s[0] == '-' && '-' !in DIGITS;
    }
  }

  // ----- what the encrypted index holds

  type EncryptedIndex = map<string, seq<string>>

  ghost predicate Posts(mm: KeywordMap, keyword: string, i: nat) { i < |Get(mm, keyword)| }

  /** All labels that building and querying compute are different: no two hash inputs of theirs collide. */
  ghost predicate Apart(s: EmmKeys, mm: KeywordMap, keywords: set<string>) {
    forall k, l, i: nat, j: nat ::
      (k in mm.Keys + keywords && l in mm.Keys + keywords && i <= |Get(mm, k)| && j <= |Get(mm, l)|
       && s.CtLabel(s.Token(k), i) == s.CtLabel(s.Token(l), j)) ==> k == l && i == j
  }

  /** The keys of an encrypted multimap, with its hash and cipher. */
  datatype EmmKeys = EmmKeys(crypto: Crypto, kToken: string, kEnc: string) {
    function Token(keyword: string): string { crypto.hash(kToken + keyword) }
    function CtLabel(token: string, i: nat): string { crypto.hash(token + ToString(i)) }
    function Encrypted(id: int): string { crypto.enc(crypto.hash(kEnc), ToString(id)) }
    function Decrypted(ct: string): Option<int> {
      match crypto.dec(crypto.hash(kEnc), ct)
      case None => None
      case Some(text) => Stoi(text)
    }

    /** Exactly the postings of some keywords are stored, each alone under its label. */
    ghost predicate Holds(mm: KeywordMap, done: set<string>, tset: EncryptedIndex) {
      && (forall k, i: nat :: k in done && Posts(mm, k, i) ==>
            CtLabel(Token(k), i) in tset && tset[CtLabel(Token(k), i)] == [Encrypted(Get(mm, k)[i])])
      && forall l :: l in tset ==> exists k, i: nat :: k in done && Posts(mm, k, i) && l == CtLabel(Token(k), i)
    }
  }

  lemma DecryptedEncrypted(s: EmmKeys, id: int)
    requires s.crypto.Inverse()
    ensures s.Decrypted(s.Encrypted(id)) == Some(id)
  {
    StoiOfToString(id);
  }

  /** The first n postings of a keyword are stored on top of those of other keywords. */
  ghost predicate HoldsPart(s: EmmKeys, mm: KeywordMap, done: set<string>, keyword: string, n: nat,
                            tset: EncryptedIndex) {
    && (forall k, i: nat :: k in done && Posts(mm, k, i) ==>
          s.CtLabel(s.Token(k), i) in tset && tset[s.CtLabel(s.Token(k), i)] == [s.Encrypted(Get(mm, k)[i])])
    && (forall i: nat :: i < n && Posts(mm, keyword, i) ==>
          s.CtLabel(s.Token(keyword), i) in tset
              && tset[s.CtLabel(s.Token(keyword), i)] == [s.Encrypted(Get(mm, keyword)[i])])
    && forall l :: l in tset ==>
         || (exists k, i: nat :: k in done && Posts(mm, k, i) && l == s.CtLabel(s.Token(k), i))
         || (exists i: nat :: i < n && Posts(mm, keyword, i) && l == s.CtLabel(s.Token(keyword), i))
  }

  lemma HoldsMore(s: EmmKeys, mm: KeywordMap, done: set<string>, keyword: string, n: nat, tset: EncryptedIndex)
    requires Apart(s, mm, {}) && done <= mm.Keys && keyword in mm.Keys && keyword !in done && Posts(mm, keyword, n)
    requires HoldsPart(s, mm, done, keyword, n, tset)
    ensures HoldsPart(s, mm, done, keyword, n + 1,
                      tset[s.CtLabel(s.Token(keyword), n) := [s.Encrypted(Get(mm, keyword)[n])]])
  {
    hide EmmKeys.CtLabel, EmmKeys.Token, EmmKeys.Encrypted;
    var tset' := tset[s.CtLabel(s.Token(keyword), n) := [s.Encrypted(Get(mm, keyword)[n])]];
    forall k, i: nat | k in done && Posts(mm, k, i)
      ensures s.CtLabel(s.Token(k), i) in tset' && tset'[s.CtLabel(s.Token(k), i)] == [s.Encrypted(Get(mm, k)[i])]
    {
      assert s.CtLabel(s.Token(k), i) != s.CtLabel(s.Token(keyword), n);
    }
  }

  lemma HoldsAll(s: EmmKeys, mm: KeywordMap, done: set<string>, keyword: string, tset: EncryptedIndex)
    requires HoldsPart(s, mm, done, keyword, |Get(mm, keyword)|, tset)
    ensures s.Holds(mm, done + {keyword}, tset)
  {
    hide EmmKeys.CtLabel, EmmKeys.Token, EmmKeys.Encrypted;
  }

  lemma HoldsNone(s: EmmKeys, mm: KeywordMap, done: set<string>, keyword: string, tset: EncryptedIndex)
    requires s.Holds(mm, done, tset)
    ensures HoldsPart(s, mm, done, keyword, 0, tset)
  {
    hide EmmKeys.CtLabel, EmmKeys.Token, EmmKeys.Encrypted;
  }

  // ----- results

  /** The ids of some entries of a result, as a bag. */
  ghost function Ids(s: EmmKeys, r: EncryptedIndex, labels: set<string>): multiset<int>
    requires labels <= r.Keys
  {
    if labels == {} then multiset{}
    else
      var l :| l in labels;
      Ids(s, r, labels - {l}) + IdsOf(s, r[l])
  }

  /** Values that do not decrypt to a numeral are skipped. */
  ghost function IdsOf(s: EmmKeys, values: seq<string>): multiset<int> {
    if values == [] then multiset{}
    else
      IdsOf(s, values[..|values| - 1]) +
      match s.Decrypted(values[|values| - 1]) case None => multiset{} case Some(id) => multiset{id}
  }

  lemma IdsOfNone(s: EmmKeys, r: EncryptedIndex)
    ensures Ids(s, r, {}) == multiset{}
  {}

  /** The bag does not depend on the order in which the entries are taken. */
  lemma {:induction false} IdsWithout(s: EmmKeys, r: EncryptedIndex, labels: set<string>, l: string)
    requires labels <= r.Keys && l in labels
    ensures Ids(s, r, labels) == Ids(s, r, labels - {l}) + IdsOf(s, r[l])
    decreases labels
  {
    var m :| m in labels && Ids(s, r, labels) == Ids(s, r, labels - {m}) + IdsOf(s, r[m]);
    if m != l {
      IdsWithout(s, r, labels - {m}, l);
      IdsWithout(s, r, labels - {l}, m);
      assert labels - {m} - {l} == labels - {l} - {m};
    }
  }

  lemma {:induction false} IdsGrow(s: EmmKeys, r: EncryptedIndex, r': EncryptedIndex, labels: set<string>)
    requires labels <= r.Keys && labels <= r'.Keys && forall l :: l in labels ==> r[l] == r'[l]
    ensures Ids(s, r, labels) == Ids(s, r', labels)
    decreases labels
  {
    if labels != {} {
      var l :| l in labels;
      IdsGrow(s, r, r', labels - {l});
      IdsWithout(s, r, labels, l);
      IdsWithout(s, r', labels, l);
    }
  }

  lemma IdsAdd(s: EmmKeys, r: EncryptedIndex, l: string, values: seq<string>)
    requires l !in r
    ensures Ids(s, r[l := values], r[l := values].Keys) == Ids(s, r, r.Keys) + IdsOf(s, values)
  {
    var r' := r[l := values];
    IdsWithout(s, r', r'.Keys, l);
    assert r'.Keys - {l} == r.Keys;
    IdsGrow(s, r, r', r.Keys);
  }

  /** A result holds the postings of some keywords and the first n of one more. */
  ghost predicate Collected(s: EmmKeys, mm: KeywordMap, done: seq<string>, keyword: string, n: nat, r: EncryptedIndex) {
    && n <= |Get(mm, keyword)|
    && (forall l :: l in r ==>
          || (exists k, i: nat :: k in done && Posts(mm, k, i) && l == s.CtLabel(s.Token(k), i))
          || (exists i: nat :: i < n && l == s.CtLabel(s.Token(keyword), i)))
    && Ids(s, r, r.Keys) == Bag(mm, done) + multiset(Get(mm, keyword)[..n])
  }

  /** The first n postings of a keyword are in a result as they are stored. */
  ghost predicate Fetched(s: EmmKeys, tset: EncryptedIndex, keyword: string, n: nat, r: EncryptedIndex) {
    forall i: nat :: i < n ==>
      var l := s.CtLabel(s.Token(keyword), i);
      l in r && l in tset && r[l] == tset[l]
  }

  ghost predicate AllFetched(s: EmmKeys, mm: KeywordMap, tset: EncryptedIndex, done: seq<string>, r: EncryptedIndex) {
    forall k :: k in done ==> Fetched(s, tset, k, |Get(mm, k)|, r)
  }

  /** Putting one stored entry in a result takes nothing from it that was fetched. */
  lemma FetchOne(s: EmmKeys, mm: KeywordMap, tset: EncryptedIndex, done: seq<string>, keyword: string, n: nat,
                 r: EncryptedIndex)
    requires AllFetched(s, mm, tset, done, r) && Fetched(s, tset, keyword, n, r)
    requires s.CtLabel(s.Token(keyword), n) in tset
    ensures var l := s.CtLabel(s.Token(keyword), n);
            AllFetched(s, mm, tset, done, r[l := tset[l]]) && Fetched(s, tset, keyword, n + 1, r[l := tset[l]])
  {
    hide EmmKeys.CtLabel, EmmKeys.Token;
  }

  /** An entry that was fetched before is not fetched twice. */
  lemma FetchedAgain(s: EmmKeys, mm: KeywordMap, tset: EncryptedIndex, done: seq<string>, keyword: string, n: nat,
                     r: EncryptedIndex)
    requires AllFetched(s, mm, tset, done, r) && keyword in done && n < |Get(mm, keyword)|
    ensures var l := s.CtLabel(s.Token(keyword), n);
            l in tset && r[l := tset[l]] == r
  {
    hide EmmKeys.CtLabel, EmmKeys.Token;
    assert Fetched(s, tset, keyword, |Get(mm, keyword)|, r);
  }

  lemma CollectOne(s: EmmKeys, mm: KeywordMap, tset: EncryptedIndex, done: seq<string>, keyword: string, n: nat,
                   r: EncryptedIndex)
    requires s.crypto.Inverse() && s.Holds(mm, mm.Keys, tset) && Apart(s, mm, (set k | k in done) + {keyword})
    requires keyword !in done && n < |Get(mm, keyword)| && Collected(s, mm, done, keyword, n, r)
    ensures var l := s.CtLabel(s.Token(keyword), n);
            l in tset && Collected(s, mm, done, keyword, n + 1, r[l := tset[l]])
  {
    hide EmmKeys.CtLabel, EmmKeys.Token, EmmKeys.Encrypted, EmmKeys.Decrypted, Ids, Bag, IdsOf, Apart, Collected;
    var l, ids := s.CtLabel(s.Token(keyword), n), Get(mm, keyword);
    assert Posts(mm, keyword, n);
    NewLabel(s, mm, done, keyword, n, r);
    IdsAdd(s, r, l, tset[l]);
    DecryptedEncrypted(s, ids[n]);
    OneValue(s, s.Encrypted(ids[n]), ids[n]);
    CollectedMore(s, mm, done, keyword, n, r, tset[l]);
  }

  lemma NewLabel(s: EmmKeys, mm: KeywordMap, done: seq<string>, keyword: string, n: nat, r: EncryptedIndex)
    requires Apart(s, mm, (set k | k in done) + {keyword}) && keyword !in done && n < |Get(mm, keyword)|
    requires Collected(s, mm, done, keyword, n, r)
    ensures s.CtLabel(s.Token(keyword), n) !in r
  {
    hide EmmKeys.CtLabel, EmmKeys.Token, EmmKeys.Encrypted, EmmKeys.Decrypted, Ids, Bag;
  }

  lemma CollectedMore(s: EmmKeys, mm: KeywordMap, done: seq<string>, keyword: string, n: nat, r: EncryptedIndex,
                      values: seq<string>)
    requires Collected(s, mm, done, keyword, n, r) && n < |Get(mm, keyword)|
    requires var r' := r[s.CtLabel(s.Token(keyword), n) := values];
             Ids(s, r', r'.Keys) == Ids(s, r, r.Keys) + multiset{Get(mm, keyword)[n]}
    ensures Collected(s, mm, done, keyword, n + 1, r[s.CtLabel(s.Token(keyword), n) := values])
  {
    hide EmmKeys.CtLabel, EmmKeys.Token, EmmKeys.Encrypted, EmmKeys.Decrypted, Ids, Bag;
    var ids := Get(mm, keyword);
    assert ids[..n + 1] == ids[..n] + [ids[n]];
  }

  lemma OneValue(s: EmmKeys, ct: string, id: int)
    requires s.Decrypted(ct) == Some(id)
    ensures IdsOf(s, [ct]) == multiset{id}
  {
    assert [ct][..0] == [];
  }

  /** The label after the last posting of a keyword is not stored. */
  lemma ProbeStops(s: EmmKeys, mm: KeywordMap, tset: EncryptedIndex, keywords: set<string>, keyword: string)
    requires s.Holds(mm, mm.Keys, tset) && Apart(s, mm, keywords) && keyword in keywords
    ensures s.CtLabel(s.Token(keyword), |Get(mm, keyword)|) !in tset
  {
    hide EmmKeys.CtLabel, EmmKeys.Token, EmmKeys.Encrypted, EmmKeys.Decrypted;
  }

  class StandardEmm {
    const keys: EmmKeys
    var tset: EncryptedIndex

    constructor (keys: EmmKeys)
      ensures this.keys == keys && tset == map[]
    {
      this.keys := keys;
      tset := map[];
    }

    /** Encrypts a whole keyword map, replacing what was stored. */
    method BuildEmm(mm: KeywordMap)
      requires Apart(keys, mm, {})
      modifies this
      ensures keys.Holds(mm, mm.Keys, tset)
    {
      hide EmmKeys.CtLabel, EmmKeys.Token, EmmKeys.Encrypted, Apart;
      tset := map[];
      ghost var done: set<string> := {};
      var todo := mm.Keys;
      while todo != {}
        invariant done + todo == mm.Keys && done !! todo && keys.Holds(mm, done, tset)
        decreases todo
      {
        var keyword :| keyword in todo;
        AddKeyword(mm, done, keyword);
        done, todo := done + {keyword}, todo - {keyword};
      }
    }

    method AddKeyword(mm: KeywordMap, ghost done: set<string>, keyword: string)
      requires Apart(keys, mm, {}) && done <= mm.Keys && keyword in mm.Keys && keyword !in done
      requires keys.Holds(mm, done, tset)
      modifies this
      ensures keys.Holds(mm, done + {keyword}, tset)
    {
      hide EmmKeys.CtLabel, EmmKeys.Token, EmmKeys.Encrypted, EmmKeys.Holds, Apart, HoldsPart;
      var ids := Get(mm, keyword);
      HoldsNone(keys, mm, done, keyword, tset);
      if ids == [] {
        HoldsAll(keys, mm, done, keyword, tset);
        return;
      }
      var token := keys.Token(keyword);
      for i := 0 to |ids|
        invariant HoldsPart(keys, mm, done, keyword, i, tset)
      {
        HoldsMore(keys, mm, done, keyword, i, tset);
        tset := tset[keys.CtLabel(token, i) := [keys.Encrypted(ids[i])]];
      }
      HoldsAll(keys, mm, done, keyword, tset);
    }

    method GenerateTokens(keywords: seq<string>) returns (tokens: seq<string>)
      ensures |tokens| == |keywords| && forall i :: 0 <= i < |tokens| ==> tokens[i] == keys.Token(keywords[i])
    {
      tokens := [];
      for i := 0 to |keywords|
        invariant |tokens| == i && forall j :: 0 <= j < i ==> tokens[j] == keys.Token(keywords[j])
      {
        tokens := tokens + [keys.Token(keywords[i])];
      }
    }

    /** Probes label after label of each token until one is not stored. A keyword that is asked for
        again adds nothing. */
    method Query(tokens: seq<string>, ghost mm: KeywordMap, ghost keywords: seq<string>) returns (r: EncryptedIndex)
      requires keys.crypto.Inverse() && keys.Holds(mm, mm.Keys, tset)
      requires Apart(keys, mm, set k | k in keywords)
      requires |tokens| == |keywords| && forall i :: 0 <= i < |tokens| ==> tokens[i] == keys.Token(keywords[i])
      ensures Ids(keys, r, r.Keys) == Bag(mm, Once(keywords))
    {
      hide EmmKeys.CtLabel, EmmKeys.Token, EmmKeys.Holds, Apart, Collected, CollectedAll, AllFetched, Crypto.Inverse;
      hide Ids, Bag, Once;
      r := map[];
      StartsEmpty(keys, mm, tset, keywords);
      for k := 0 to |tokens|
        invariant CollectedAll(keys, mm, Once(keywords[..k]), r) && AllFetched(keys, mm, tset, Once(keywords[..k]), r)
      {
        OnceMore(keywords, k);
        FewerApart(keys, mm, set key | key in keywords, (set key | key in Once(keywords[..k])) + {keywords[k]});
        r := Probe(tokens[k], r, mm, Once(keywords[..k]), keywords[k]);
      }
      assert keywords[..|keywords|] == keywords;
      IdsCollected(keys, mm, Once(keywords), r);
    }

    /** The inner loop ends after exactly as many entries as the keyword has postings. */
    method Probe(token: string, r: EncryptedIndex, ghost mm: KeywordMap, ghost done: seq<string>, ghost keyword: string)
      returns (r': EncryptedIndex)
      requires keys.crypto.Inverse() && keys.Holds(mm, mm.Keys, tset) && token == keys.Token(keyword)
      requires Apart(keys, mm, (set k | k in done) + {keyword})
      requires CollectedAll(keys, mm, done, r) && AllFetched(keys, mm, tset, done, r)
      ensures keyword in done ==> r' == r
      ensures keyword !in done ==>
                CollectedAll(keys, mm, done + [keyword], r') && AllFetched(keys, mm, tset, done + [keyword], r')
    {
      hide EmmKeys.CtLabel, EmmKeys.Token, EmmKeys.Holds, Apart, Collected, CollectedAll, Fetched, Crypto.Inverse;
      r' := r;
      var index := 0;
      ghost var n := |Get(mm, keyword)|;
      ProbeStops(keys, mm, tset, (set k | k in done) + {keyword}, keyword);
      StartKeyword(keys, mm, tset, done, keyword, r);
      while true
        invariant 0 <= index <= n && AllFetched(keys, mm, tset, done, r') && Fetched(keys, tset, keyword, index, r')
        invariant if keyword in done then r' == r else Collected(keys, mm, done, keyword, index, r')
        decreases n - index
      {
        var l := keys.CtLabel(token, index);
        if index < n {
          if keyword in done {
            FetchedAgain(keys, mm, tset, done, keyword, index, r');
          } else {
            CollectOne(keys, mm, tset, done, keyword, index, r');
          }
          FetchOne(keys, mm, tset, done, keyword, index, r');
        }
        if l !in tset { break; }
        r' := r'[l := tset[l]];
        index := index + 1;
      }
      if keyword !in done { KeywordDone(keys, mm, done, keyword, r'); }
    }

    /** Decrypts all values of a result, in any order. */
    method DecryptResults(r: EncryptedIndex) returns (ids: seq<int>)
      ensures multiset(ids) == Ids(keys, r, r.Keys)
    {
      hide Ids;
      ids := [];
      var todo := r.Keys;
      while todo != {}
        invariant todo <= r.Keys && multiset(ids) + Ids(keys, r, todo) == Ids(keys, r, r.Keys)
        decreases todo
      {
        var l :| l in todo;
        IdsWithout(keys, r, todo, l);
        var some := DecryptValues(r[l]);
        ids := ids + some;
        todo := todo - {l};
      }
      IdsOfNone(keys, r);
    }

    /** What fails to decrypt to a numeral is skipped. */
    method DecryptValues(values: seq<string>) returns (ids: seq<int>)
      ensures multiset(ids) == IdsOf(keys, values)
    {
      hide EmmKeys.Decrypted;
      ids := [];
      for i := 0 to |values|
        invariant multiset(ids) == IdsOf(keys, values[..i])
      {
        assert values[..i + 1][..i] == values[..i];
        match keys.Decrypted(values[i])
        case Some(id) => ids := ids + [id];
        case None =>
      }
      assert values[..|values|] == values;
    }

    /** The decrypted answer to a query is the sum of the postings of its keywords, each taken once. */
    method Ask(keywords: seq<string>, ghost mm: KeywordMap) returns (ids: seq<int>)
      requires keys.crypto.Inverse() && keys.Holds(mm, mm.Keys, tset)
      requires Apart(keys, mm, set k | k in keywords)
      ensures multiset(ids) == Bag(mm, Once(keywords))
      ensures Distinct(keywords) ==> multiset(ids) == Bag(mm, keywords)
    {
      var tokens := GenerateTokens(keywords);
      var r := Query(tokens, mm, keywords);
      ids := DecryptResults(r);
      OnceExact(keywords);
    }
  }

  /** A result holds exactly the postings of some keywords. */
  ghost predicate CollectedAll(s: EmmKeys, mm: KeywordMap, done: seq<string>, r: EncryptedIndex) {
    && (forall l :: l in r ==> exists k, i: nat :: k in done && Posts(mm, k, i) && l == s.CtLabel(s.Token(k), i))
    && Ids(s, r, r.Keys) == Bag(mm, done)
  }

  lemma StartsEmpty(s: EmmKeys, mm: KeywordMap, tset: EncryptedIndex, keywords: seq<string>)
    ensures CollectedAll(s, mm, Once(keywords[..0]), map[]) && AllFetched(s, mm, tset, Once(keywords[..0]), map[])
  {}

  lemma IdsCollected(s: EmmKeys, mm: KeywordMap, done: seq<string>, r: EncryptedIndex)
    requires CollectedAll(s, mm, done, r)
    ensures Ids(s, r, r.Keys) == Bag(mm, done)
  {}

  lemma OnceMore(keywords: seq<string>, k: nat)
    requires k < |keywords|
    ensures var done := Once(keywords[..k]);
            && Once(keywords[..k + 1]) == (if keywords[k] in done then done else done + [keywords[k]])
            && (set key | key in done) + {keywords[k]} <= set key | key in keywords
  {
    OnceExact(keywords[..k]);
    assert keywords[..k + 1][..k] == keywords[..k];
  }

  lemma FewerApart(s: EmmKeys, mm: KeywordMap, keywords: set<string>, fewer: set<string>)
    requires Apart(s, mm, keywords) && fewer <= keywords
    ensures Apart(s, mm, fewer)
  {
    hide EmmKeys.Token, EmmKeys.CtLabel;
  }

  lemma StartKeyword(s: EmmKeys, mm: KeywordMap, tset: EncryptedIndex, done: seq<string>, keyword: string,
                     r: EncryptedIndex)
    requires CollectedAll(s, mm, done, r)
    ensures Collected(s, mm, done, keyword, 0, r) && Fetched(s, tset, keyword, 0, r)
  {
    hide EmmKeys.CtLabel, EmmKeys.Token, EmmKeys.Encrypted, EmmKeys.Decrypted, Bag, Ids;
    assert Get(mm, keyword)[..0] == [];
  }

  lemma KeywordDone(s: EmmKeys, mm: KeywordMap, done: seq<string>, keyword: string, r: EncryptedIndex)
    requires Collected(s, mm, done, keyword, |Get(mm, keyword)|, r)
    ensures CollectedAll(s, mm, done + [keyword], r)
  {
    hide EmmKeys.CtLabel, EmmKeys.Token, EmmKeys.Encrypted, EmmKeys.Decrypted, Ids;
    var ids, all := Get(mm, keyword), done + [keyword];
    assert ids[..|ids|] == ids && all[..|done|] == done;
    forall l | l in r ensures exists key, i: nat :: key in all && Posts(mm, key, i) && l == s.CtLabel(s.Token(key), i) {
      if key, i: nat :| key in done && Posts(mm, key, i) && l == s.CtLabel(s.Token(key), i) {
        assert key in all;
      } else {
        var i: nat :| i < |ids| && l == s.CtLabel(s.Token(keyword), i);
        assert Posts(mm, keyword, i);
      }
    }
  }
}
