/** Sequences without repetition. */
module Sequences {

  /** `s` without the repetitions of earlier elements. */
  function FirstOccurrences<T(==)>(s: seq<T>): seq<T>
  {
    if s == [] then []
    else
      var before, last := FirstOccurrences(s[..|s| - 1]), s[|s| - 1];
      if last in before then before else before + [last]
  }

  predicate NoDuplicates<T(==)>(s: seq<T>)
  {
    forall i, j :: 0 <= i < j < |s| ==> s[i] != s[j]
  }

  /** `s[k]` is the first occurrence of `x`. */
  predicate FirstAt<T(==)>(s: seq<T>, x: T, k: nat)
  {
    k < |s| && s[k] == x && forall j :: 0 <= j < k ==> s[j] != x
  }

  lemma {:induction false} SameElements<T>(s: seq<T>, x: T)
    ensures x in FirstOccurrences(s) <==> x in s
  {
    if s != [] {
      SameElements(s[..|s| - 1], x);
      assert s == s[..|s| - 1] + [s[|s| - 1]];
    }
  }

  lemma {:induction false} OccurrencesAreDistinct<T>(s: seq<T>)
    ensures NoDuplicates(FirstOccurrences(s))
  {
    if s != [] {
      OccurrencesAreDistinct(s[..|s| - 1]);
    }
  }

  /** Elements keep the order of their first occurrences. */
  lemma {:induction false} OccurrencesAreOrdered<T>(s: seq<T>, i: nat, j: nat, a: nat, b: nat)
    requires i < j < |FirstOccurrences(s)|
    requires FirstAt(s, FirstOccurrences(s)[i], a) && FirstAt(s, FirstOccurrences(s)[j], b)
    ensures a < b
    decreases |s|
  {
    var front, last := s[..|s| - 1], s[|s| - 1];
    var r := FirstOccurrences(front);
    SameElements(front, FirstOccurrences(s)[i]);
    assert r[i] in front;
    FirstInFront(s, r[i], a);
    if j < |r| {
      SameElements(front, r[j]);
      assert r[j] in front;
      FirstInFront(s, r[j], b);
      OccurrencesAreOrdered(front, i, j, a, b);
    } else {
      SameElements(front, last);
      assert last !in front;
    }
  }

  lemma FirstInFront<T>(s: seq<T>, x: T, k: nat)
    requires FirstAt(s, x, k) && x in s[..|s| - 1]
    ensures FirstAt(s[..|s| - 1], x, k)
  {
    var front := s[..|s| - 1];
    var j :| 0 <= j < |front| && front[j] == x;
    assert s[j] == x;
  }

  /** Nothing is dropped exactly when nothing repeats. */
  lemma {:induction false} NothingDropped<T>(s: seq<T>)
    ensures |FirstOccurrences(s)| <= |s|
    ensures |FirstOccurrences(s)| == |s| ==> FirstOccurrences(s) == s
    ensures NoDuplicates(s) ==> FirstOccurrences(s) == s
  {
    if s != [] {
      var front, last := s[..|s| - 1], s[|s| - 1];
      NothingDropped(front);
      assert s == front + [last];
      SameElements(front, last);
      if NoDuplicates(s) {
        assert last !in front;
      }
    }
  }
}
