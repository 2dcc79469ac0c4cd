/** The members of a sequence, and whether any comes twice. */
module Sequences {

  ghost function Members<T>(s: seq<T>): set<T> { set x | x in s }

  ghost predicate Distinct<T>(s: seq<T>) { forall i, j :: 0 <= i < j < |s| ==> s[i] != s[j] }

  /** Every member once, where it comes first. */
  ghost function Once<T>(s: seq<T>): seq<T> {
    if s == [] then []
    else
      var front, last := s[..|s| - 1], s[|s| - 1];
      Once(front) + if last in front then [] else [last]
  }

  lemma {:induction false} OnceExact<T>(s: seq<T>)
    ensures Distinct(Once(s)) && forall x :: x in Once(s) <==> x in s
    ensures Distinct(s) ==> Once(s) == s
  {
    if s != [] {
      var front, last := s[..|s| - 1], s[|s| - 1];
      OnceExact(front);
      assert s == front + [last];
      if last !in front { assert Distinct(Once(front) + [last]); }
    }
  }

  lemma LastIsNew<T>(s: seq<T>)
    requires Distinct(s) && s != []
    ensures Distinct(s[..|s| - 1]) && s[|s| - 1] !in s[..|s| - 1]
    ensures Members(s) == Members(s[..|s| - 1]) + {s[|s| - 1]}
  {
    var front, last := s[..|s| - 1], s[|s| - 1];
    assert s == front + [last];
  }

  lemma {:induction false} DistinctCounted<T>(s: seq<T>)
    requires Distinct(s)
    ensures |Members(s)| == |s|
  {
    hide Distinct, Members;
    if s == [] {
      NoMembers(s);
    } else {
      LastIsNew(s);
      DistinctCounted(s[..|s| - 1]);
      MemberOf(s[..|s| - 1], s[|s| - 1]);
    }
  }

  lemma NoMembers<T>(s: seq<T>)
    requires s == []
    ensures Members(s) == {}
  {}

  lemma MemberOf<T>(s: seq<T>, x: T)
    ensures x in Members(s) <==> x in s
  {}

  ghost predicate IsPart<T>(whole: seq<T>, part: seq<T>, from: nat, to: nat) {
    from + |part| == to <= |whole| && whole[from..to] == part
  }

  /** The parts follow each other in whole, part i from cuts[i] on. */
  ghost predicate CutInto<T>(whole: seq<T>, parts: seq<seq<T>>, cuts: seq<nat>) {
    && |cuts| == |parts| + 1 && cuts[0] == 0 && cuts[|parts|] == |whole|
    && forall i {:trigger parts[i]} :: 0 <= i < |parts| ==> IsPart(whole, parts[i], cuts[i], cuts[i + 1])
  }

  /** whole is the parts one after the other. */
  ghost predicate IsConcat<T(!new)>(parts: seq<seq<T>>, whole: seq<T>) { exists cuts :: CutInto(whole, parts, cuts) }

  lemma ConcatNone<T(!new)>()
    ensures IsConcat<T>([], [])
  {
    assert CutInto<T>([], [], [0]);
  }

  lemma ConcatMore<T(!new)>(parts: seq<seq<T>>, whole: seq<T>, part: seq<T>)
    requires IsConcat(parts, whole)
    ensures IsConcat(parts + [part], whole + part)
  {
    var cuts :| CutInto(whole, parts, cuts);
    var end: nat := |whole + part|;
    var cuts', parts', whole' := cuts + [end], parts + [part], whole + part;
    forall i | 0 <= i < |parts'| ensures IsPart(whole', parts'[i], cuts'[i], cuts'[i + 1]) {
      if i < |parts| {
        assert parts'[i] == parts[i] && IsPart(whole, parts[i], cuts[i], cuts[i + 1]);
        assert whole'[cuts[i]..cuts[i + 1]] == whole[cuts[i]..cuts[i + 1]];
      }
    }
    assert CutInto(whole', parts', cuts');
  }

  lemma FirstMember<T>(s: seq<T>)
    ensures s != [] ==> s[0] in s
  {}

  ghost predicate Rising(at: seq<nat>) { forall i, j :: 0 <= i < j < |at| ==> at[i] < at[j] }

  /** The numbers below n with a property, in increasing order. */
  ghost predicate Selects(at: seq<nat>, n: nat, p: nat -> bool) {
    Rising(at) && forall i: nat :: i in at <==> i < n && p(i)
  }
}
