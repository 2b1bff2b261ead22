/** Search domains: normalisation (platform/mod.rs) and host name checks (daemon/src/validation.rs). */
module Domains {
  import opened Sequences

  // --------------------------------------------------------------- cleaning

  /** `char::is_whitespace`, the Unicode White_Space property. */
  predicate IsWhitespace(c: char)
  {
    var n := c as int;
    9 <= n <= 13 || n == 0x20 || n == 0x85 || n == 0xa0 || n == 0x1680 || 0x2000 <= n <= 0x200a || n == 0x2028
    || n == 0x2029 || n == 0x202f || n == 0x205f || n == 0x3000
  }

  function TrimStart(s: string): (r: string)
    ensures |r| <= |s|
    ensures r != "" ==> !IsWhitespace(r[0])
  {
    if s != "" && IsWhitespace(s[0]) then TrimStart(s[1..]) else s
  }

  function TrimEnd(s: string): (r: string)
    ensures r <= s
    ensures r != "" ==> !IsWhitespace(r[|r| - 1])
  {
    if s != "" && IsWhitespace(s[|s| - 1]) then TrimEnd(s[..|s| - 1]) else s
  }

  function TrimDots(s: string): (r: string)
    ensures |r| <= |s|
    ensures r != "" ==> r[0] != '.' && r[|r| - 1] == s[|s| - 1]
  {
    if s != "" && s[0] == '.' then TrimDots(s[1..]) else s
  }

  /** `value.trim().trim_start_matches('.')` */
  function Clean(s: string): string
  {
    TrimDots(TrimEnd(TrimStart(s)))
  }

  predicate AllWhitespace(s: string)
  {
    forall i :: 0 <= i < |s| ==> IsWhitespace(s[i])
  }

  predicate AllDots(s: string)
  {
    forall i :: 0 <= i < |s| ==> s[i] == '.'
  }

  lemma {:induction false} TrimStartSplits(s: string) returns (front: string)
    ensures s == front + TrimStart(s) && AllWhitespace(front)
  {
    hide IsWhitespace;
    if s != "" && IsWhitespace(s[0]) {
      var more := TrimStartSplits(s[1..]);
      front := [s[0]] + more;
      assert s == [s[0]] + s[1..];
    } else {
      front := "";
    }
  }

  lemma {:induction false} TrimEndSplits(s: string) returns (back: string)
    ensures s == TrimEnd(s) + back && AllWhitespace(back)
  {
    hide IsWhitespace;
    if s != "" && IsWhitespace(s[|s| - 1]) {
      var more := TrimEndSplits(s[..|s| - 1]);
      back := more + [s[|s| - 1]];
      assert s == s[..|s| - 1] + [s[|s| - 1]];
    } else {
      back := "";
    }
  }

  lemma {:induction false} TrimDotsSplits(s: string) returns (front: string)
    ensures s == front + TrimDots(s) && AllDots(front)
  {
    if s != "" && s[0] == '.' {
      var more := TrimDotsSplits(s[1..]);
      front := [s[0]] + more;
      assert s == [s[0]] + s[1..];
    } else {
      front := "";
    }
  }

  /** Cleaning takes off whitespace at both ends and then dots in front, all of them and nothing else. */
  lemma CleanMeaning(s: string) returns (before: string, dots: string, after: string)
    ensures s == before + (dots + Clean(s)) + after && AllWhitespace(before) && AllDots(dots) && AllWhitespace(after)
    ensures dots + Clean(s) != "" ==> !IsWhitespace((dots + Clean(s))[0])
    ensures Clean(s) != "" ==> Clean(s)[0] != '.' && !IsWhitespace(Clean(s)[|Clean(s)| - 1])
  {
    hide IsWhitespace, AllWhitespace, AllDots, TrimStart, TrimEnd, TrimDots;
    var t := TrimStart(s);
    var u := TrimEnd(t);
    before := TrimStartSplits(s);
    after := TrimEndSplits(t);
    dots := TrimDotsSplits(u);
    assert u != "" ==> u[0] == t[0];
    assert before + (u + after) == before + u + after;
  }

  /** A cleaned value is its own cleaned form exactly when it does not begin with whitespace. */
  lemma CleanAgain(s: string)
    requires Clean(s) != ""
    ensures Clean(Clean(s)) == Clean(s) <==> !IsWhitespace(Clean(s)[0])
  {
    hide IsWhitespace;
    var c := Clean(s);
    if IsWhitespace(c[0]) {
      assert |Clean(c)| <= |TrimStart(c)| == |TrimStart(c[1..])| < |c|;
    } else {
      assert TrimStart(c) == c && TrimEnd(c) == c;
    }
  }

  /** The cleaned values that are not empty, in order. */
  function Cleaned(values: seq<string>): seq<string>
  {
    if values == [] then []
    else
      var before, c := Cleaned(values[..|values| - 1]), Clean(values[|values| - 1]);
      if c == "" then before else before + [c]
  }

  lemma {:induction false} CleanedMembers(values: seq<string>, c: string)
    ensures c in Cleaned(values) <==> c != "" && exists i :: 0 <= i < |values| && Clean(values[i]) == c
  {
    hide Clean;
    if values != [] {
      var front, last := values[..|values| - 1], values[|values| - 1];
      CleanedMembers(front, c);
      assert values == front + [last];
      if c in Cleaned(front) {
        var i :| 0 <= i < |front| && Clean(front[i]) == c;
        assert Clean(values[i]) == c;
      } else if c in Cleaned(values) {
        assert Clean(values[|values| - 1]) == c;
      }
    }
  }

  lemma {:induction false} CleanedIsShorter(values: seq<string>)
    ensures |Cleaned(values)| <= |values|
  {
    hide Clean;
    if values == [] {
    } else {
      CleanedIsShorter(values[..|values| - 1]);
    }
  }

  /** If no value is dropped, each is cleaned in its place. */
  lemma {:induction false} NothingDroppedByCleaning(values: seq<string>, i: nat)
    requires |Cleaned(values)| == |values| && i < |values|
    ensures Cleaned(values)[i] == Clean(values[i])
  {
    hide Clean;
    var front := values[..|values| - 1];
    CleanedIsShorter(front);
    if i < |front| {
      NothingDroppedByCleaning(front, i);
    }
  }

  /** Clean values stay as they are. */
  lemma {:induction false} CleanedAlready(values: seq<string>)
    requires forall i :: 0 <= i < |values| ==> values[i] != "" && Clean(values[i]) == values[i]
    ensures Cleaned(values) == values
  {
    hide Clean;
    if values == [] {
    } else {
      var n := |values| - 1;
      CleanedAlready(values[..n]);
      assert Clean(values[n]) == values[n];
      assert values == values[..n] + [values[n]];
    }
  }

  // ---------------------------------------------------------- normalisation

  function Normalised(values: seq<string>): seq<string>
  {
    FirstOccurrences(Cleaned(values))
  }

  /** `normalize_domains` */
  method NormalizeDomains(values: seq<string>) returns (normalized: seq<string>)
    ensures normalized == Normalised(values)
  {
    hide Clean;
    normalized := [];
    var seen: set<string> := {};
    for i := 0 to |values|
      invariant normalized == Normalised(values[..i])
      invariant forall x :: x in seen <==> x in normalized
    {
      assert values[..i + 1][..i] == values[..i];
      var domain := Clean(values[i]);
      if domain != "" {
        ghost var before := Cleaned(values[..i]);
        assert (before + [domain])[..|before|] == before;
        if domain !in seen {
          seen := seen + {domain};
          normalized := normalized + [domain];
        }
      }
    }
    assert values[..|values|] == values;
  }

  /** The normal form has no duplicates, holds exactly the non-empty cleaned values, and keeps the order in which they
      first occur. */
  lemma NormalisedMeaning(values: seq<string>)
    ensures NoDuplicates(Normalised(values))
    ensures forall c :: c in Normalised(values) <==> c != "" && exists i :: 0 <= i < |values| && Clean(values[i]) == c
    ensures forall i: nat, j: nat, a: nat, b: nat ::
              (&& i < j < |Normalised(values)| && FirstAt(Cleaned(values), Normalised(values)[i], a)
               && FirstAt(Cleaned(values), Normalised(values)[j], b)) ==> a < b
  {
    hide Clean, Cleaned, FirstOccurrences, NoDuplicates, FirstAt;
    var cleaned := Cleaned(values);
    OccurrencesAreDistinct(cleaned);
    forall c ensures c in Normalised(values) <==> c != "" && exists i :: 0 <= i < |values| && Clean(values[i]) == c {
      SameElements(cleaned, c);
      CleanedMembers(values, c);
    }
    forall i: nat, j: nat, a: nat, b: nat | i < j < |Normalised(values)| && FirstAt(cleaned, Normalised(values)[i], a)
                                            && FirstAt(cleaned, Normalised(values)[j], b)
      ensures a < b
    {
      OccurrencesAreOrdered(cleaned, i, j, a, b);
    }
  }

  /** `values[k]` is the first value that cleans to `c`. */
  predicate FirstClean(values: seq<string>, c: string, k: nat)
  {
    k < |values| && Clean(values[k]) == c && forall j :: 0 <= j < k ==> Clean(values[j]) != c
  }

  lemma NormalisedSnoc(values: seq<string>)
    requires values != []
    ensures var n, before := |values| - 1, Normalised(values[..|values| - 1]);
            Normalised(values) == if Clean(values[n]) == "" || Clean(values[n]) in before then before else before + [Clean(values[n])]
  {
    hide Clean;
    var front, c := Cleaned(values[..|values| - 1]), Clean(values[|values| - 1]);
    assert (front + [c])[..|front|] == front;
  }

  lemma FirstCleanInFront(values: seq<string>, c: string, k: nat)
    requires FirstClean(values, c, k) && c in Normalised(values[..|values| - 1])
    ensures FirstClean(values[..|values| - 1], c, k)
  {
    hide Clean, Normalised;
    var front := values[..|values| - 1];
    NormalisedMeaning(front);
    var i :| 0 <= i < |front| && Clean(front[i]) == c;
    assert Clean(values[i]) == c;
  }

  /** The normal form lists the cleaned values in the order in which they first occur in the input. */
  lemma {:induction false} NormalisedInInputOrder(values: seq<string>, i: nat, j: nat, a: nat, b: nat)
    requires i < j < |Normalised(values)|
    requires FirstClean(values, Normalised(values)[i], a) && FirstClean(values, Normalised(values)[j], b)
    ensures a < b
    decreases |values|
  {
    var n := |values| - 1;
    hide Clean, Cleaned, FirstOccurrences;
    NoValuesNormalise(values);
    NormalisedSnoc(values);
    var front, r := values[..n], Normalised(values[..n]);
    FirstCleanInFront(values, r[i], a);
    if j < |r| {
      FirstCleanInFront(values, r[j], b);
      NormalisedInInputOrder(front, i, j, a, b);
    } else {
      NormalisedMeaning(front);
      assert forall k :: 0 <= k < n ==> front[k] == values[k];
    }
  }

  lemma NoValuesNormalise(values: seq<string>)
    ensures values == [] ==> Normalised(values) == []
  {}

  /** Every element of a normal form is non-empty and cleaned. */
  lemma NormalisedIsCleaned(values: seq<string>, k: nat) returns (i: nat)
    requires k < |Normalised(values)|
    ensures i < |values| && Clean(values[i]) == Normalised(values)[k] && Normalised(values)[k] != ""
  {
    hide Clean;
    var c := Normalised(values)[k];
    SameElements(Cleaned(values), c);
    CleanedMembers(values, c);
    i :| 0 <= i < |values| && Clean(values[i]) == c;
  }

  predicate Settled(values: seq<string>)
  {
    forall i :: 0 <= i < |values| ==> values[i] != "" && !IsWhitespace(values[i][0])
  }

  /** A normal form is stable exactly when no cleaned value begins with whitespace. */
  lemma StableIff(values: seq<string>)
    ensures Normalised(Normalised(values)) == Normalised(values) <==> Settled(Normalised(values))
  {
    hide Clean, IsWhitespace, Cleaned, FirstOccurrences;
    var r := Normalised(values);
    forall k | 0 <= k < |r|
      ensures r[k] != "" && (Clean(r[k]) == r[k] <==> !IsWhitespace(r[k][0]))
    {
      var i := NormalisedIsCleaned(values, k);
      CleanAgain(values[i]);
    }
    if Settled(r) {
      CleanedAlready(r);
      OccurrencesAreDistinct(Cleaned(values));
      NothingDropped(r);
    }
    if Normalised(r) == r {
      CleanedIsShorter(r);
      NothingDropped(Cleaned(r));
      forall k | 0 <= k < |r|
        ensures Clean(r[k]) == r[k]
      {
        NothingDroppedByCleaning(r, k);
      }
    }
  }

  /** The condition, on the input: normalising twice changes nothing exactly when no value has whitespace after its
      leading dots. */
  lemma NormaliseTwice(values: seq<string>)
    ensures Normalised(Normalised(values)) == Normalised(values)
            <==> forall i :: 0 <= i < |values| && Clean(values[i]) != "" ==> !IsWhitespace(Clean(values[i])[0])
  {
    hide Clean, IsWhitespace, Cleaned, FirstOccurrences;
    StableIff(values);
    var r := Normalised(values);
    forall i | 0 <= i < |values| && Clean(values[i]) != ""
      ensures Clean(values[i]) in r
    {
      CleanedMembers(values, Clean(values[i]));
      SameElements(Cleaned(values), Clean(values[i]));
    }
    forall k | 0 <= k < |r|
      ensures exists i :: 0 <= i < |values| && Clean(values[i]) == r[k] && r[k] != ""
    {
      var i := NormalisedIsCleaned(values, k);
    }
  }

  /** Without validation the normal form need not be stable. */
  lemma SpaceAfterDot()
    ensures Normalised([". a"]) == [" a"] && Normalised([" a"]) == ["a"]
  {
    assert TrimStart(". a") == ". a" && TrimEnd(". a") == ". a";
    assert ". a"[1..] == " a" && TrimDots(" a") == " a";
    assert Clean(". a") == " a";
    assert " a"[1..] == "a" && TrimStart(" a") == "a";
    assert Clean(" a") == "a";
    assert Cleaned([". a"]) == [" a"] && Cleaned([" a"]) == ["a"];
  }
}
