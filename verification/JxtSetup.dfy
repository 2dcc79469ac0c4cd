/** Setting up the join index of one table: every posting of a keyword goes into a list under the
    key of its join value, and leaves a token entry that only a fitting join token opens. */
module JxtSetup {
  import opened Arith
  import opened Decimal
  import opened Tool

  // ----- bytes as longs

  /** Little-endian: the last byte weighs most. */
  function LongOf(b: Bytes): nat {
    if b == [] then 0 else 256 * LongOf(b[1..]) + b[0]
  }

  /** The first eight bytes as a 64-bit number; reading it as a signed long is one to one. */
  function ToLong(b: Bytes): nat { LongOf(b[..Min(|b|, 8)]) }

  /** Byte number i stands at the place of 256^i. */
  lemma {:induction false} LongOfBytes(b: Bytes, i: nat)
    requires i < |b|
    ensures LongOf(b) / Pow2(8 * i) % 256 == b[i]
    decreases i
  {
    hide Pow2;
    var rest := LongOf(b[1..]);
    if i == 0 {
      PowerZero();
      DivModUnique(LongOf(b), 256, rest, b[0]);
    } else {
      LongOfBytes(b[1..], i - 1);
      PowerStep(i);
      LowByteDropped(rest, b[0], Pow2(8 * (i - 1)));
    }
  }

  lemma PowerZero()
    ensures Pow2(0) == 1
  {}

  lemma PowerStep(i: nat)
    requires i > 0
    ensures Pow2(8 * i) == 256 * Pow2(8 * (i - 1))
  {
    Pow2Add(8, 8 * (i - 1));
    assert Pow2(8) == 256;
  }

  lemma LowByteDropped(a: nat, x: Byte, p: nat)
    requires p > 0
    ensures (256 * a + x) / (256 * p) == a / p
  {
    QuotientNat(a, p);
    assert a == a / p * p + a % p;
    assert 256 * (a / p * p) == a / p * (256 * p);
    DivModUnique(256 * a + x, 256 * p, a / p, 256 * (a % p) + x);
  }

  /** The loop shifts in the bytes from the last to the first. */
  method BytesToLong(bytes: Bytes) returns (num: nat)
    ensures num == ToLong(bytes)
    ensures forall i: nat :: i < |bytes| && i < 8 ==> num / Pow2(8 * i) % 256 == bytes[i]
  {
    hide Pow2;
    forall i: nat | i < |bytes| && i < 8 ensures ToLong(bytes) / Pow2(8 * i) % 256 == bytes[i] {
      LongOfBytes(bytes[..Min(|bytes|, 8)], i);
    }
    num := 0;
    var len := Min(|bytes|, 8);
    for i := 0 to len
      invariant num == LongOf(bytes[len - i..len])
    {
      assert bytes[len - i - 1..len][1..] == bytes[len - i..len];
      num := num * 256 + bytes[len - i - 1];
    }
  }

  /** A number moved up by k binary digits. */
  ghost function Shifted(a: nat, k: nat): nat { if k == 0 then a else 2 * Shifted(a, k - 1) }

  lemma ShiftedByte(a: nat)
    ensures Shifted(a, 8) == 256 * a
  {
    assert Shifted(a, 1) == 2 * a && Shifted(a, 2) == 4 * a && Shifted(a, 3) == 8 * a;
    assert Shifted(a, 4) == 16 * a && Shifted(a, 5) == 32 * a && Shifted(a, 6) == 64 * a;
  }

  /** Exclusive-or of the upper and the lower digits separately. */
  lemma {:induction false} NatXorDigits(a: nat, x: nat, b: nat, y: nat, k: nat)
    requires x < Pow2(k) && y < Pow2(k)
    ensures NatXor(Shifted(a, k) + x, Shifted(b, k) + y) == Shifted(NatXor(a, b), k) + NatXor(x, y)
    decreases k
  {
    if k > 0 {
      NatXorDigits(a, x / 2, b, y / 2, k - 1);
      hide NatXor;
      DigitsStep(Shifted(a, k - 1), x, Shifted(b, k - 1), y, Shifted(NatXor(a, b), k - 1));
    }
  }

  lemma DigitsStep(a: nat, x: nat, b: nat, y: nat, n: nat)
    requires NatXor(a + x / 2, b + y / 2) == n + NatXor(x / 2, y / 2)
    ensures NatXor(2 * a + x, 2 * b + y) == 2 * n + NatXor(x, y)
  {
    hide NatXor;
    var u, v := 2 * a + x, 2 * b + y;
    NatXorBits(u, v);
    NatXorBits(x, y);
    ParityOfSum(u, v, x, y);
    SameBits(NatXor(u, v), 2 * n + NatXor(x, y));
  }

  lemma ParityOfSum(u: nat, v: nat, x: nat, y: nat)
    requires u % 2 == x % 2 && v % 2 == y % 2
    ensures (u + v) % 2 == (x + y) % 2
  {}

  lemma LastByteXor(a: nat, x: Byte, b: nat, y: Byte)
    ensures NatXor(256 * a + x, 256 * b + y) == 256 * NatXor(a, b) + NatXor(x, y)
  {
    hide NatXor, Shifted;
    assert Pow2(8) == 256;
    NatXorDigits(a, x, b, y, 8);
    ShiftedByte(a);
    ShiftedByte(b);
    ShiftedByte(NatXor(a, b));
  }

  lemma {:induction false} LongOfXor(x: Bytes, y: Bytes)
    requires |x| == |y|
    ensures LongOf(XorBytes(x, y)) == NatXor(LongOf(x), LongOf(y))
  {
    hide NatXor, Shifted;
    if x != [] {
      LongOfXor(x[1..], y[1..]);
      assert XorBytes(x, y)[1..] == XorBytes(x[1..], y[1..]);
      LastByteXor(LongOf(x[1..]), x[0], LongOf(y[1..]), y[0]);
    } else {
      NatXorSelf(0);
    }
  }

  /** The long of an exclusive-or is the exclusive-or of the longs. */
  lemma ToLongXor(x: Bytes, y: Bytes)
    requires |x| >= 8 && |y| >= 8
    ensures ToLong(XorBytes(x, y)) == NatXor(ToLong(x), ToLong(y)) && |XorBytes(x, y)| >= 8
  {
    assert XorBytes(x, y)[..8] == XorBytes(x[..8], y[..8]);
    LongOfXor(x[..8], y[..8]);
  }

  // ----- keys and tables

  const K_AES := "8975924566f6e252"
  const K_TOKEN := "89b7a92966f6eb32"
  const K_W := "7975922666f6eb02"
  const K_Z := "9862192ad6f6ef65"
  const K_H := "9874a22554e7db85"

  function BytesOf(s: string): (b: Bytes)
    ensures |b| == |s|
  {
    seq(|s|, i requires 0 <= i < |s| => s[i] as int % 256)
  }

  const MASK := BytesOf(K_Z)

  datatype Crypto = Crypto(hash: string -> Bytes, enc: (Bytes, string) -> Bytes) {
    ghost predicate Valid() {
      (forall s :: |hash(s)| == 32) && forall key, plain :: enc(key, plain) != []
    }

    /** The n-th hash of a keyword; number 0 stands for the keyword itself. */
    function W(keyword: string, n: nat): Bytes { hash(K_W + keyword + ToString(n)) }
    function Y(value: string): Bytes { hash(K_Z + value) }
    function JoinHash(column: string): Bytes { hash(K_H + column) }

    /** The key of a join value under a keyword and a column. */
    function XY(keyword: string, column: string, value: string): nat {
      ToLong(XorBytes(XorBytes(W(keyword, 0), Y(value)), JoinHash(column)))
    }
  }

  /** The record lists of all keywords; row 0 of the join attributes holds the column names. */
  datatype Table = Table(tableId: int, id: seq<string>, joinAttr: seq<seq<string>>, columns: nat,
                         reverseId: map<string, seq<int>>) {
    ghost predicate Valid() {
      |joinAttr| == |id| > 0 && forall r :: 0 <= r < |joinAttr| ==> |joinAttr[r]| == columns
    }

    predicate HasRecord(r: int) { 0 <= r < |id| && id[r] != "" }

    ghost predicate RecordsOk(keyword: string)
      requires keyword in reverseId
    {
      forall i :: 0 <= i < |reverseId[keyword]| ==> HasRecord(reverseId[keyword][i])
    }

    function Column(j: nat): string
      requires |joinAttr| > 0 && |joinAttr[0]| > j
    {
      joinAttr[0][j]
    }
  }

  datatype Posting = Posting(value: string, ct: Bytes)

  /** A keyword and a join column. */
  datatype Series = Series(keyword: string, column: nat)

  predicate IsSeries(t: Table, s: Series) { s.keyword in t.reverseId && s.column < t.columns }

  function PostingOf(c: Crypto, t: Table, s: Series, r: int): Posting
    requires t.Valid() && s.column < t.columns
  {
    if t.HasRecord(r) then Posting(t.joinAttr[r][s.column], c.enc(c.hash(K_AES + s.keyword), t.id[r]))
    else Posting("", [])
  }

  /** The plaintext view: join value and ciphertext of every record of a keyword. */
  function PostingsOf(c: Crypto, t: Table, s: Series): (ps: seq<Posting>)
    requires t.Valid() && IsSeries(t, s)
    ensures |ps| == |t.reverseId[s.keyword]|
  {
    var records := t.reverseId[s.keyword];
    seq(|records|, i requires 0 <= i < |records| => PostingOf(c, t, s, records[i]))
  }

  predicate Occurs(ps: seq<Posting>, value: string) { exists i :: 0 <= i < |ps| && ps[i].value == value }

  /** The ciphertexts of all postings with a join value, in order. */
  function Group(ps: seq<Posting>, value: string): seq<Bytes> {
    if ps == [] then []
    else Group(ps[..|ps| - 1], value) + if ps[|ps| - 1].value == value then [ps[|ps| - 1].ct] else []
  }

  lemma OccursAppend(ps: seq<Posting>, p: Posting, value: string)
    ensures Occurs(ps + [p], value) <==> Occurs(ps, value) || p.value == value
    ensures Group(ps + [p], value) == Group(ps, value) + if p.value == value then [p.ct] else []
  {
    var all := ps + [p];
    assert all[..|ps|] == ps;
    if i :| 0 <= i < |ps| && ps[i].value == value { assert all[i].value == value; }
    if p.value == value { assert all[|ps|].value == value; }
  }

  lemma {:induction false} GroupEmpty(ps: seq<Posting>, value: string)
    ensures Group(ps, value) == [] <==> !Occurs(ps, value)
  {
    if ps != [] {
      GroupEmpty(ps[..|ps| - 1], value);
      OccursAppend(ps[..|ps| - 1], ps[|ps| - 1], value);
      assert ps == ps[..|ps| - 1] + [ps[|ps| - 1]];
    }
  }

  function KeyOf(c: Crypto, t: Table, s: Series, value: string): nat
    requires t.Valid() && s.column < t.columns
  {
    c.XY(s.keyword, t.Column(s.column), value)
  }

  /** What a posting leaves in the list of its token: a posting whose join value came up before is masked. */
  function Entry(c: Crypto, ps: seq<Posting>, keyword: string, i: nat): Bytes
    requires i < |ps|
  {
    var plain := XorBytes(c.W(keyword, i + 1), c.Y(ps[i].value));
    if Occurs(ps[..i], ps[i].value) then XorBytes(plain, MASK) else plain
  }

  function Entries(c: Crypto, ps: seq<Posting>, keyword: string, n: nat): seq<Bytes>
    requires n <= |ps|
  {
    if n == 0 then [] else Entries(c, ps, keyword, n - 1) + [Entry(c, ps, keyword, n - 1)]
  }

  // ----- the keyed lists

  type Cset = map<nat, seq<Bytes>>
  type Tset = map<Bytes, seq<Bytes>>

  /** How many postings of each series were taken in. */
  type Counts = map<Series, nat>

  ghost predicate CountsOk(t: Table, counts: Counts) {
    forall s :: s in counts ==> IsSeries(t, s) && counts[s] <= |t.reverseId[s.keyword]|
  }

  ghost predicate Used(c: Crypto, t: Table, counts: Counts, s: Series, value: string)
    requires t.Valid() && CountsOk(t, counts)
  {
    s in counts && Occurs(PostingsOf(c, t, s)[..counts[s]], value)
  }

  /** Under the key of each value stand its ciphertexts, and there are no other keys. */
  ghost predicate CsetOk(c: Crypto, t: Table, counts: Counts, cset: Cset)
    requires t.Valid() && CountsOk(t, counts)
  {
    && (forall s, v :: Used(c, t, counts, s, v) ==>
          KeyOf(c, t, s, v) in cset && cset[KeyOf(c, t, s, v)] == Group(PostingsOf(c, t, s)[..counts[s]], v))
    && forall key :: key in cset ==> exists s, v :: Used(c, t, counts, s, v) && key == KeyOf(c, t, s, v)
  }

  /** No two join values that occur in the table have the same key. */
  ghost predicate KeysApart(c: Crypto, t: Table)
    requires t.Valid()
  {
    forall s, v, q, u :: OccursIn(c, t, s, v) && OccursIn(c, t, q, u) && KeyOf(c, t, s, v) == KeyOf(c, t, q, u) ==>
        s == q && v == u
  }

  ghost predicate OccursIn(c: Crypto, t: Table, s: Series, value: string)
    requires t.Valid()
  {
    IsSeries(t, s) && Occurs(PostingsOf(c, t, s), value)
  }

  lemma UsedOccurs(c: Crypto, t: Table, counts: Counts, s: Series, value: string)
    requires t.Valid() && CountsOk(t, counts) && Used(c, t, counts, s, value)
    ensures OccursIn(c, t, s, value)
  {
    var ps := PostingsOf(c, t, s);
    var i :| 0 <= i < |ps[..counts[s]]| && ps[..counts[s]][i].value == value;
    assert ps[i].value == value;
  }

  function Taken(counts: Counts, s: Series): nat { if s in counts then counts[s] else 0 }

  /** The key of the next posting of a series is there exactly if its value came up before. */
  lemma NewKey(c: Crypto, t: Table, counts: Counts, cset: Cset, s: Series)
    requires t.Valid() && CountsOk(t, counts) && CsetOk(c, t, counts, cset) && KeysApart(c, t)
    requires IsSeries(t, s) && Taken(counts, s) < |PostingsOf(c, t, s)|
    ensures var ps, n := PostingsOf(c, t, s), Taken(counts, s);
            KeyOf(c, t, s, ps[n].value) in cset <==> Occurs(ps[..n], ps[n].value)
  {
    var ps, n := PostingsOf(c, t, s), Taken(counts, s);
    var v := ps[n].value;
    if Occurs(ps[..n], v) { assert Used(c, t, counts, s, v); }
    if KeyOf(c, t, s, v) in cset {
      var q, u :| Used(c, t, counts, q, u) && KeyOf(c, t, s, v) == KeyOf(c, t, q, u);
      UsedOccurs(c, t, counts, q, u);
      assert OccursIn(c, t, s, v);
    }
  }

  function ListAt(cset: Cset, key: nat): seq<Bytes> { if key in cset then cset[key] else [] }

  /** Taking in one more posting of a series. */
  lemma TakeOne(c: Crypto, t: Table, counts: Counts, cset: Cset, s: Series)
    requires t.Valid() && CountsOk(t, counts) && CsetOk(c, t, counts, cset) && KeysApart(c, t)
    requires IsSeries(t, s) && Taken(counts, s) < |PostingsOf(c, t, s)|
    ensures var p, n := PostingsOf(c, t, s)[Taken(counts, s)], Taken(counts, s) + 1;
            var key := KeyOf(c, t, s, p.value);
            CountsOk(t, counts[s := n]) && CsetOk(c, t, counts[s := n], cset[key := ListAt(cset, key) + [p.ct]])
  {
    hide KeyOf, PostingsOf, Group, KeysApart;
    var ps, n := PostingsOf(c, t, s), Taken(counts, s);
    var p, counts' := ps[n], counts[s := n + 1];
    var key := KeyOf(c, t, s, p.value);
    var cset' := cset[key := ListAt(cset, key) + [p.ct]];
    NewKey(c, t, counts, cset, s);
    assert ps[..n + 1] == ps[..n] + [p];
    forall q, u | Used(c, t, counts', q, u)
      ensures KeyOf(c, t, q, u) in cset' && cset'[KeyOf(c, t, q, u)] == Group(PostingsOf(c, t, q)[..counts'[q]], u)
    {
      TakenGroup(c, t, counts, cset, s, q, u);
    }
    forall k | k in cset' ensures exists q, u :: Used(c, t, counts', q, u) && k == KeyOf(c, t, q, u) {
      TakenKey(c, t, counts, cset, s, k);
    }
  }

  lemma TakenGroup(c: Crypto, t: Table, counts: Counts, cset: Cset, s: Series, q: Series, u: string)
    requires t.Valid() && CountsOk(t, counts) && CsetOk(c, t, counts, cset) && KeysApart(c, t)
    requires IsSeries(t, s) && Taken(counts, s) < |PostingsOf(c, t, s)|
    requires CountsOk(t, counts[s := Taken(counts, s) + 1])
    requires Used(c, t, counts[s := Taken(counts, s) + 1], q, u)
    ensures var p, n := PostingsOf(c, t, s)[Taken(counts, s)], Taken(counts, s) + 1;
            var key := KeyOf(c, t, s, p.value);
            var cset' := cset[key := ListAt(cset, key) + [p.ct]];
            KeyOf(c, t, q, u) in cset' && cset'[KeyOf(c, t, q, u)] == Group(PostingsOf(c, t, q)[..counts[s := n][q]], u)
  {
    hide KeyOf, PostingsOf, Group;
    var ps, n := PostingsOf(c, t, s), Taken(counts, s);
    var p := ps[n];
    NewKey(c, t, counts, cset, s);
    UsedOccurs(c, t, counts[s := n + 1], q, u);
    InPostings(c, t, s, n);
    GroupEmpty(ps[..n], p.value);
    if q == s {
      assert ps[..n + 1] == ps[..n] + [p];
      OccursAppend(ps[..n], p, u);
      assert u != p.value ==> Used(c, t, counts, q, u);
      assert Occurs(ps[..n], p.value) ==> Used(c, t, counts, q, p.value);
    } else {
      assert Used(c, t, counts, q, u);
    }
  }

  lemma InPostings(c: Crypto, t: Table, s: Series, n: nat)
    requires t.Valid() && IsSeries(t, s) && n < |PostingsOf(c, t, s)|
    ensures OccursIn(c, t, s, PostingsOf(c, t, s)[n].value)
  {}

  lemma TakenKey(c: Crypto, t: Table, counts: Counts, cset: Cset, s: Series, k: nat)
    requires t.Valid() && CountsOk(t, counts) && CsetOk(c, t, counts, cset)
    requires IsSeries(t, s) && Taken(counts, s) < |PostingsOf(c, t, s)|
    requires CountsOk(t, counts[s := Taken(counts, s) + 1])
    requires k in cset || k == KeyOf(c, t, s, PostingsOf(c, t, s)[Taken(counts, s)].value)
    ensures exists q, u :: Used(c, t, counts[s := Taken(counts, s) + 1], q, u) && k == KeyOf(c, t, q, u)
  {
    hide KeyOf, PostingsOf, Group;
    var ps, n := PostingsOf(c, t, s), Taken(counts, s);
    assert ps[..n + 1] == ps[..n] + [ps[n]];
    if k in cset {
      var q, u :| Used(c, t, counts, q, u) && k == KeyOf(c, t, q, u);
      if q == s { OccursAppend(ps[..n], ps[n], u); }
      assert Used(c, t, counts[s := n + 1], q, u);
    } else {
      OccursAppend(ps[..n], ps[n], ps[n].value);
      assert Used(c, t, counts[s := n + 1], s, ps[n].value);
    }
  }

  // ----- the finished index

  /** Every join value of every series has its list, and there are no other lists. */
  ghost predicate CsetFull(c: Crypto, t: Table, cset: Cset)
    requires t.Valid()
  {
    && (forall s, v :: OccursIn(c, t, s, v) ==>
          KeyOf(c, t, s, v) in cset && cset[KeyOf(c, t, s, v)] == Group(PostingsOf(c, t, s), v))
    && forall key :: key in cset ==> exists s, v :: OccursIn(c, t, s, v) && key == KeyOf(c, t, s, v)
  }

  function TokenOf(c: Crypto, t: Table, s: Series): Bytes
    requires t.Valid() && s.column < t.columns
  {
    c.hash(K_TOKEN + s.keyword + t.Column(s.column) + ToString(t.tableId))
  }

  /** No two series of the table have the same token. */
  ghost predicate TokensApart(c: Crypto, t: Table)
    requires t.Valid()
  {
    forall s, q :: IsSeries(t, s) && IsSeries(t, q) && TokenOf(c, t, s) == TokenOf(c, t, q) ==> s == q
  }

  /** The entries of some keywords stand under the tokens of their series. */
  ghost predicate TsetOk(c: Crypto, t: Table, done: set<string>, tset: Tset)
    requires t.Valid()
  {
    forall s :: IsSeries(t, s) && s.keyword in done && t.reverseId[s.keyword] != [] ==>
      TokenOf(c, t, s) in tset && tset[TokenOf(c, t, s)] == EntriesOf(c, t, s)
  }

  function EntriesOf(c: Crypto, t: Table, s: Series): seq<Bytes>
    requires t.Valid() && IsSeries(t, s)
  {
    Entries(c, PostingsOf(c, t, s), s.keyword, |PostingsOf(c, t, s)|)
  }

  /** All postings of the keywords done, and none of other keywords. */
  ghost predicate Complete(t: Table, done: set<string>, counts: Counts) {
    && (forall s :: IsSeries(t, s) && s.keyword in done ==> Taken(counts, s) == |t.reverseId[s.keyword]|)
    && forall s :: s in counts ==> s.keyword in done
  }

  /** Of the keyword being taken in: i postings, and one more in the first j columns. */
  ghost predicate Partial(t: Table, done: set<string>, keyword: string, i: nat, j: nat, counts: Counts) {
    && (forall s :: IsSeries(t, s) && s.keyword in done ==> Taken(counts, s) == |t.reverseId[s.keyword]|)
    && (forall s :: IsSeries(t, s) && s.keyword == keyword ==> Taken(counts, s) == i + if s.column < j then 1 else 0)
    && forall s :: s in counts ==> s.keyword in done || s.keyword == keyword
  }

  lemma PartialStarts(t: Table, done: set<string>, keyword: string, counts: Counts)
    requires Complete(t, done, counts) && keyword !in done
    ensures Partial(t, done, keyword, 0, 0, counts)
  {}

  lemma PartialStep(t: Table, done: set<string>, keyword: string, i: nat, j: nat, counts: Counts)
    requires Partial(t, done, keyword, i, j, counts) && keyword !in done
    ensures Partial(t, done, keyword, i, j + 1, counts[Series(keyword, j) := i + 1])
  {}

  lemma PartialRow(t: Table, done: set<string>, keyword: string, i: nat, counts: Counts)
    requires Partial(t, done, keyword, i, t.columns, counts)
    ensures Partial(t, done, keyword, i + 1, 0, counts)
  {}

  lemma PartialDone(t: Table, done: set<string>, keyword: string, counts: Counts)
    requires keyword in t.reverseId && Partial(t, done, keyword, |t.reverseId[keyword]|, 0, counts)
    ensures Complete(t, done + {keyword}, counts)
  {}

  lemma PartialTaken(t: Table, done: set<string>, keyword: string, i: nat, j: nat, counts: Counts)
    requires Partial(t, done, keyword, i, j, counts) && IsSeries(t, Series(keyword, j))
    ensures Taken(counts, Series(keyword, j)) == i
  {}

  lemma FullWhenComplete(c: Crypto, t: Table, counts: Counts, cset: Cset)
    requires t.Valid() && CountsOk(t, counts) && CsetOk(c, t, counts, cset) && Complete(t, t.reverseId.Keys, counts)
    ensures CsetFull(c, t, cset)
  {
    hide KeyOf, PostingsOf, Group;
    forall s, v | OccursIn(c, t, s, v)
      ensures KeyOf(c, t, s, v) in cset && cset[KeyOf(c, t, s, v)] == Group(PostingsOf(c, t, s), v)
    {
      var ps := PostingsOf(c, t, s);
      assert Occurs(ps, v) && Taken(counts, s) == |ps|;
      assert |ps| > 0 && ps[..|ps|] == ps;
      assert Used(c, t, counts, s, v);
    }
    forall key | key in cset ensures exists s, v :: OccursIn(c, t, s, v) && key == KeyOf(c, t, s, v) {
      var s, v :| Used(c, t, counts, s, v) && key == KeyOf(c, t, s, v);
      UsedOccurs(c, t, counts, s, v);
    }
  }

  /** The lists of the columns of one keyword hold the entries of its postings so far. */
  ghost predicate RowsOk(c: Crypto, t: Table, keyword: string, i: nat, j: nat, rows: seq<seq<Bytes>>)
    requires t.Valid() && keyword in t.reverseId
  {
    |rows| == t.columns && i <= |t.reverseId[keyword]| && (j > 0 ==> i < |t.reverseId[keyword]|)
    && forall k :: 0 <= k < t.columns ==>
         rows[k] == Entries(c, PostingsOf(c, t, Series(keyword, k)), keyword, if k < j then i + 1 else i)
  }

  lemma NothingTaken(c: Crypto, t: Table)
    requires t.Valid()
    ensures CountsOk(t, map[]) && CsetOk(c, t, map[], map[]) && Complete(t, {}, map[]) && TsetOk(c, t, {}, map[])
  {}

  lemma RowsStart(c: Crypto, t: Table, keyword: string, rows: seq<seq<Bytes>>)
    requires t.Valid() && keyword in t.reverseId && |rows| == t.columns && forall k :: 0 <= k < |rows| ==> rows[k] == []
    ensures RowsOk(c, t, keyword, 0, 0, rows)
  {}

  lemma RowsStep(c: Crypto, t: Table, keyword: string, i: nat, j: nat, rows: seq<seq<Bytes>>, each: Bytes)
    requires t.Valid() && keyword in t.reverseId && RowsOk(c, t, keyword, i, j, rows) && j < t.columns
    requires i < |t.reverseId[keyword]|
    requires each == Entry(c, PostingsOf(c, t, Series(keyword, j)), keyword, i)
    ensures |rows| == t.columns && RowsOk(c, t, keyword, i, j + 1, rows[j := rows[j] + [each]])
  {
    hide PostingsOf, Entry;
  }

  lemma RowsRow(c: Crypto, t: Table, keyword: string, i: nat, rows: seq<seq<Bytes>>)
    requires t.Valid() && keyword in t.reverseId && RowsOk(c, t, keyword, i, t.columns, rows)
    requires i < |t.reverseId[keyword]|
    ensures RowsOk(c, t, keyword, i + 1, 0, rows)
  {
    hide PostingsOf, Entry, Entries;
  }

  /** The rows of a keyword all of whose postings are taken in. */
  lemma RowsAre(c: Crypto, t: Table, keyword: string, rows: seq<seq<Bytes>>)
    requires t.Valid() && keyword in t.reverseId && RowsOk(c, t, keyword, |t.reverseId[keyword]|, 0, rows)
    ensures |rows| == t.columns && forall k :: 0 <= k < t.columns ==> rows[k] == EntriesOf(c, t, Series(keyword, k))
  {
    hide Entries;
  }

  lemma EmptyTset(c: Crypto, t: Table, done: set<string>, keyword: string, tset: Tset)
    requires t.Valid() && keyword in t.reverseId && t.reverseId[keyword] == [] && TsetOk(c, t, done, tset)
    ensures TsetOk(c, t, done + {keyword}, tset)
  {
    hide TokenOf, EntriesOf;
  }

  /** The lists of the first j columns of a keyword are stored as well. */
  ghost predicate TsetPart(c: Crypto, t: Table, done: set<string>, keyword: string, j: nat, tset: Tset)
    requires t.Valid() && keyword in t.reverseId && j <= t.columns
  {
    && TsetOk(c, t, done, tset)
    && forall k :: 0 <= k < j ==>
         var s := Series(keyword, k);
         TokenOf(c, t, s) in tset && tset[TokenOf(c, t, s)] == EntriesOf(c, t, s)
  }

  lemma TsetPartStarts(c: Crypto, t: Table, done: set<string>, keyword: string, tset: Tset)
    requires t.Valid() && keyword in t.reverseId && TsetOk(c, t, done, tset)
    ensures TsetPart(c, t, done, keyword, 0, tset)
  {}

  lemma TsetStep(c: Crypto, t: Table, done: set<string>, keyword: string, j: nat, tset: Tset)
    requires t.Valid() && TokensApart(c, t) && keyword in t.reverseId && keyword !in done && j < t.columns
    requires TsetPart(c, t, done, keyword, j, tset)
    ensures TsetPart(c, t, done, keyword, j + 1,
                     tset[TokenOf(c, t, Series(keyword, j)) := EntriesOf(c, t, Series(keyword, j))])
  {
    hide TokenOf, EntriesOf;
    var s := Series(keyword, j);
    var tset' := tset[TokenOf(c, t, s) := EntriesOf(c, t, s)];
    forall q | IsSeries(t, q) && q.keyword in done && t.reverseId[q.keyword] != []
      ensures TokenOf(c, t, q) in tset' && tset'[TokenOf(c, t, q)] == EntriesOf(c, t, q)
    {
      assert TokenOf(c, t, q) != TokenOf(c, t, s);
    }
    forall k | 0 <= k < j ensures TokenOf(c, t, Series(keyword, k)) != TokenOf(c, t, s) {
      assert IsSeries(t, Series(keyword, k)) && IsSeries(t, s);
    }
  }

  lemma TsetPartDone(c: Crypto, t: Table, done: set<string>, keyword: string, tset: Tset)
    requires t.Valid() && keyword in t.reverseId && TsetPart(c, t, done, keyword, t.columns, tset)
    ensures TsetOk(c, t, done + {keyword}, tset)
  {
    hide TokenOf, EntriesOf;
    forall s | IsSeries(t, s) && s.keyword == keyword
      ensures TokenOf(c, t, s) in tset && tset[TokenOf(c, t, s)] == EntriesOf(c, t, s)
    {
      assert s == Series(keyword, s.column);
    }
  }

  class SetupJxtp {
    const crypto: Crypto
    const table: Table
    var tset: Tset
    var cset: Cset
    var xy: seq<nat>

    constructor (crypto: Crypto, table: Table)
      ensures this.crypto == crypto && this.table == table && tset == map[] && cset == map[] && xy == []
    {
      this.crypto, this.table, tset, cset, xy := crypto, table, map[], map[], [];
    }

    /** What construction keeps: the lists hold the postings taken in, and their keys are those listed
        for the filter. */
    ghost predicate Holds(counts: Counts)
      requires table.Valid()
      reads this
    {
      && CountsOk(table, counts) && CsetOk(crypto, table, counts, cset)
      && forall key :: key in cset <==> key in xy
    }

    /** Takes in every posting of every keyword; a list with a record that does not exist throws. */
    method Construct() returns (ok: bool)
      requires crypto.Valid() && table.Valid() && KeysApart(crypto, table) && TokensApart(crypto, table)
      requires tset == map[] && cset == map[] && xy == []
      modifies this
      ensures ok <==> forall keyword :: keyword in table.reverseId ==> table.RecordsOk(keyword)
      ensures ok ==> CsetFull(crypto, table, cset) && TsetOk(crypto, table, table.reverseId.Keys, tset)
      ensures ok ==> forall key :: key in cset <==> key in xy
    {
      hide Crypto.Valid, KeysApart, TokensApart, CsetOk, CountsOk, TsetOk, Complete, Partial, CsetFull;
      ghost var counts: Counts, done: set<string> := map[], {};
      var todo := table.reverseId.Keys;
      NothingTaken(crypto, table);
      while todo != {}
        invariant done + todo == table.reverseId.Keys && done !! todo
        invariant Holds(counts) && Complete(table, done, counts) && TsetOk(crypto, table, done, tset)
        invariant forall keyword :: keyword in done ==> table.RecordsOk(keyword)
        decreases todo
      {
        var keyword :| keyword in todo;
        ok, counts := AddKeyword(keyword, done, counts);
        if !ok { return; }
        done, todo := done + {keyword}, todo - {keyword};
      }
      FullWhenComplete(crypto, table, counts, cset);
      ok := true;
    }

    method AddKeyword(keyword: string, ghost done: set<string>, ghost counts: Counts)
      returns (ok: bool, ghost counts': Counts)
      requires crypto.Valid() && table.Valid() && KeysApart(crypto, table) && TokensApart(crypto, table)
      requires keyword in table.reverseId && keyword !in done && done <= table.reverseId.Keys
      requires Holds(counts) && Complete(table, done, counts) && TsetOk(crypto, table, done, tset)
      modifies this
      ensures ok <==> table.RecordsOk(keyword)
      ensures ok ==>
                && Holds(counts') && Complete(table, done + {keyword}, counts')
                && TsetOk(crypto, table, done + {keyword}, tset)
    {
      hide Crypto.Valid, KeysApart, TokensApart, CsetOk, CountsOk, TsetOk, Complete, Partial, RowsOk, Crypto.W;
      var records := table.reverseId[keyword];
      counts' := counts;
      PartialStarts(table, done, keyword, counts);
      if records == [] {
        PartialDone(table, done, keyword, counts);
        EmptyTset(crypto, table, done, keyword, tset);
        return true, counts;
      }
      var w := crypto.W(keyword, 0);
      var rows := seq(table.columns, _ => []);
      RowsStart(crypto, table, keyword, rows);
      ghost var tset0 := tset;
      for i := 0 to |records|
        invariant Holds(counts') && Partial(table, done, keyword, i, 0, counts')
        invariant RowsOk(crypto, table, keyword, i, 0, rows)
        invariant tset == tset0 && forall k :: 0 <= k < i ==> table.HasRecord(records[k])
      {
        if !table.HasRecord(records[i]) { return false, counts'; }
        rows, counts' := AddRecord(keyword, i, w, rows, done, counts');
      }
      PartialDone(table, done, keyword, counts');
      AddTokens(keyword, rows, done);
      ok := true;
    }

    /** The loop over the join columns of one record. */
    method AddRecord(keyword: string, i: nat, w: Bytes, rows: seq<seq<Bytes>>, ghost done: set<string>,
                     ghost counts: Counts)
      returns (rows': seq<seq<Bytes>>, ghost counts': Counts)
      requires crypto.Valid() && table.Valid() && KeysApart(crypto, table)
      requires keyword in table.reverseId && keyword !in done && i < |table.reverseId[keyword]|
      requires w == crypto.W(keyword, 0)
      requires table.HasRecord(table.reverseId[keyword][i])
      requires Holds(counts) && Partial(table, done, keyword, i, 0, counts)
      requires RowsOk(crypto, table, keyword, i, 0, rows)
      modifies this
      ensures tset == old(tset)
      ensures Holds(counts') && Partial(table, done, keyword, i + 1, 0, counts')
      ensures RowsOk(crypto, table, keyword, i + 1, 0, rows')
    {
      hide Crypto.Valid, KeysApart, CsetOk, CountsOk, Partial, RowsOk, Crypto.W, Entry, PostingOf;
      var record := table.reverseId[keyword][i];
      var wCnt := crypto.W(keyword, i + 1);
      var ct := crypto.enc(crypto.hash(K_AES + keyword), table.id[record]);
      rows', counts' := rows, counts;
      for j := 0 to table.columns
        invariant tset == old(tset)
        invariant Holds(counts') && Partial(table, done, keyword, i, j, counts')
        invariant RowsOk(crypto, table, keyword, i, j, rows')
      {
        var each;
        PartialTaken(table, done, keyword, i, j, counts');
        PartialStep(table, done, keyword, i, j, counts');
        each, counts' := AddPosting(keyword, i, j, w, wCnt, ct, counts');
        RowsStep(crypto, table, keyword, i, j, rows', each);
        rows' := rows'[j := rows'[j] + [each]];
      }
      PartialRow(table, done, keyword, i, counts');
      RowsRow(crypto, table, keyword, i, rows');
    }

    /** One posting in one column: its list grows, its key is noted for the filter, and its entry
        is masked when the key was there already. */
    method AddPosting(keyword: string, i: nat, j: nat, w: Bytes, wCnt: Bytes, ct: Bytes, ghost counts: Counts)
      returns (each: Bytes, ghost counts': Counts)
      requires table.Valid() && KeysApart(crypto, table) && keyword in table.reverseId && j < table.columns
      requires i < |table.reverseId[keyword]| && table.HasRecord(table.reverseId[keyword][i])
      requires w == crypto.W(keyword, 0) && wCnt == crypto.W(keyword, i + 1)
      requires ct == crypto.enc(crypto.hash(K_AES + keyword), table.id[table.reverseId[keyword][i]])
      requires Holds(counts) && Taken(counts, Series(keyword, j)) == i
      modifies this
      ensures tset == old(tset) && counts' == counts[Series(keyword, j) := i + 1] && Holds(counts')
      ensures each == Entry(crypto, PostingsOf(crypto, table, Series(keyword, j)), keyword, i)
    {
      hide KeysApart, CsetOk, CountsOk, Crypto.W, Crypto.Y, Crypto.JoinHash, ToLong, XorBytes, Group, Occurs;
      var value := table.joinAttr[table.reverseId[keyword][i]][j];
      ghost var s := Series(keyword, j);
      var y := crypto.Y(value);
      each := XorBytes(wCnt, y);
      var key := ToLong(XorBytes(XorBytes(w, y), crypto.JoinHash(table.Column(j))));
      assert PostingsOf(crypto, table, s)[i] == Posting(value, ct);
      assert KeyOf(crypto, table, s, value) == key;
      NewKey(crypto, table, counts, cset, s);
      TakeOne(crypto, table, counts, cset, s);
      xy := xy + [key];
      if key in cset {
        cset := cset[key := cset[key] + [ct]];
        each := XorBytes(each, MASK);
      } else {
        assert [] + [ct] == [ct];
        cset := cset[key := [ct]];
      }
      counts' := counts[s := i + 1];
    }

    /** Stores the lists of all columns of a keyword under their tokens. */
    method AddTokens(keyword: string, rows: seq<seq<Bytes>>, ghost done: set<string>)
      requires table.Valid() && keyword in table.reverseId && TokensApart(crypto, table) && keyword !in done
      requires RowsOk(crypto, table, keyword, |table.reverseId[keyword]|, 0, rows) && TsetOk(crypto, table, done, tset)
      modifies this
      ensures cset == old(cset) && xy == old(xy)
      ensures TsetOk(crypto, table, done + {keyword}, tset)
    {
      hide TokensApart, TsetPart, TsetOk, PostingsOf, TokenOf, EntriesOf, Table.Column;
      RowsAre(crypto, table, keyword, rows);
      TsetPartStarts(crypto, table, done, keyword, tset);
      for j := 0 to table.columns
        invariant cset == old(cset) && xy == old(xy) && TsetPart(crypto, table, done, keyword, j, tset)
      {
        TsetStep(crypto, table, done, keyword, j, tset);
        tset := tset[TokenOf(crypto, table, Series(keyword, j)) := rows[j]];
      }
      TsetPartDone(crypto, table, done, keyword, tset);
    }
  }
}
