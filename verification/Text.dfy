/** Number printing, separators and string order, as the Kotlin and Rust standard libraries define them. */
module Text {

  function DigitChar(d: nat): char
    requires d < 16
  {
    "0123456789abcdef"[d]
  }

  function DigitValue(c: char): nat
  {
    if '0' <= c <= '9' then c as int - '0' as int
    else if 'a' <= c <= 'f' then c as int - 'a' as int + 10
    else 0
  }

  predicate IsDigit(c: char, base: nat)
  {
    ('0' <= c <= '9' || 'a' <= c <= 'f') && DigitValue(c) < base
  }

  /** `n.toString(base)`: no sign, no leading zero. */
  function Digits(n: nat, base: nat): string
    requires base == 10 || base == 16
  {
    if n < base then [DigitChar(n)] else Digits(n / base, base) + [DigitChar(n % base)]
  }

  /** The number a digit string denotes, leading zeros allowed. */
  function Value(s: string, base: nat): nat
  {
    if s == [] then 0 else Value(s[..|s| - 1], base) * base + DigitValue(s[|s| - 1])
  }

  lemma DigitCharValue(d: nat)
    requires d < 16
    ensures DigitValue(DigitChar(d)) == d
    ensures '0' <= DigitChar(d) <= '9' || 'a' <= DigitChar(d) <= 'f'
  {}

  lemma ValueSnoc(s: string, c: char, base: nat)
    ensures Value(s + [c], base) == Value(s, base) * base + DigitValue(c)
  {
    assert (s + [c])[..|s|] == s;
  }

  lemma ValueOfNothing(base: nat)
    ensures Value([], base) == 0
  {}

  lemma {:induction false} ValueOfDigits(n: nat, base: nat)
    requires base == 10 || base == 16
    ensures Value(Digits(n, base), base) == n
  {
    hide DigitChar, DigitValue, Value;
    DigitCharValue(n % base);
    if n < base {
      assert [] + [DigitChar(n)] == [DigitChar(n)];
      ValueSnoc([], DigitChar(n), base);
      ValueOfNothing(base);
    } else {
      ValueOfDigits(n / base, base);
      ValueSnoc(Digits(n / base, base), DigitChar(n % base), base);
    }
  }

  lemma {:induction false} DigitsAreDigits(n: nat, base: nat)
    requires base == 10 || base == 16
    ensures Digits(n, base) != []
    ensures forall i :: 0 <= i < |Digits(n, base)| ==> IsDigit(Digits(n, base)[i], base)
  {
    DigitCharValue(n % base);
    if n >= base {
      DigitsAreDigits(n / base, base);
    }
  }

  lemma DigitsInjective(m: nat, n: nat, base: nat)
    requires base == 10 || base == 16
    requires Digits(m, base) == Digits(n, base)
    ensures m == n
  {
    ValueOfDigits(m, base);
    ValueOfDigits(n, base);
  }

  /** A separator that occurs in neither head cuts a string in only one place. */
  lemma SplitUnique(a: string, x: string, b: string, y: string, sep: char)
    requires sep !in a && sep !in b
    requires a + [sep] + x == b + [sep] + y
    ensures a == b && x == y
  {
    var s := a + [sep] + x;
    assert s[|a|] == sep && s[|b|] == sep;
    assert forall i :: 0 <= i < |a| ==> s[i] == a[i];
    assert forall i :: 0 <= i < |b| ==> s[i] == b[i];
    assert |a| == |b|;
    assert a == s[..|a|] && x == s[|a| + 1..];
    assert b == s[..|b|] && y == s[|b| + 1..];
  }

  /** `joinToString(sep)` */
  function Join(parts: seq<string>, sep: char): string
  {
    if |parts| == 0 then "" else if |parts| == 1 then parts[0] else parts[0] + [sep] + Join(parts[1..], sep)
  }

  lemma {:induction false} JoinInjective(p: seq<string>, q: seq<string>, sep: char)
    requires |p| == |q|
    requires forall i :: 0 <= i < |p| ==> sep !in p[i] && sep !in q[i]
    requires Join(p, sep) == Join(q, sep)
    ensures p == q
  {
    if |p| > 1 {
      SplitUnique(p[0], Join(p[1..], sep), q[0], Join(q[1..], sep), sep);
      JoinInjective(p[1..], q[1..], sep);
      assert p == [p[0]] + p[1..] && q == [q[0]] + q[1..];
    }
  }

  /** `s.split(sep)` */
  function Split(s: string, sep: char): (parts: seq<string>)
    ensures parts != []
  {
    if s == "" then [""]
    else if s[0] == sep then [""] + Split(s[1..], sep)
    else
      var rest := Split(s[1..], sep);
      [[s[0]] + rest[0]] + rest[1..]
  }

  predicate NoneHas(parts: seq<string>, sep: char)
  {
    forall i :: 0 <= i < |parts| ==> sep !in parts[i]
  }

  lemma {:induction false} JoinOfSplit(s: string, sep: char)
    ensures NoneHas(Split(s, sep), sep) && Join(Split(s, sep), sep) == s
  {
    if s != "" {
      var rest := Split(s[1..], sep);
      JoinOfSplit(s[1..], sep);
      assert s == [s[0]] + s[1..];
      if s[0] == sep {
        assert ([""] + rest)[1..] == rest;
      } else {
        assert sep !in [s[0]] + rest[0];
        JoinOfLongerHead(rest, s[0], sep);
      }
    }
  }

  lemma JoinOfLongerHead(parts: seq<string>, c: char, sep: char)
    requires parts != []
    ensures Join([[c] + parts[0]] + parts[1..], sep) == [c] + Join(parts, sep)
  {
    var longer := [[c] + parts[0]] + parts[1..];
    assert longer[1..] == parts[1..];
  }

  lemma {:induction false} SplitOfPart(part: string, more: string, sep: char)
    requires sep !in part
    ensures Split(part, sep) == [part]
    ensures Split(part + [sep] + more, sep) == [part] + Split(more, sep)
  {
    if part == "" {
      assert (part + [sep] + more)[1..] == more;
    } else {
      SplitOfPart(part[1..], more, sep);
      assert (part + [sep] + more)[1..] == part[1..] + [sep] + more;
      assert part == [part[0]] + part[1..];
    }
  }

  lemma {:induction false} SplitOfJoin(parts: seq<string>, sep: char)
    requires parts != [] && NoneHas(parts, sep)
    ensures Split(Join(parts, sep), sep) == parts
  {
    if |parts| == 1 {
      SplitOfPart(parts[0], "", sep);
    } else {
      SplitOfJoin(parts[1..], sep);
      SplitOfPart(parts[0], Join(parts[1..], sep), sep);
      assert parts == [parts[0]] + parts[1..];
    }
  }

  /** Characters of a joined string come from its parts or are the separator. */
  lemma {:induction false} JoinChars(parts: seq<string>, sep: char, c: char)
    requires c != sep
    requires forall i :: 0 <= i < |parts| ==> c !in parts[i]
    ensures c !in Join(parts, sep)
  {
    if |parts| > 1 {
      JoinChars(parts[1..], sep, c);
    }
  }

  /** `a < b` in the lexicographic order of `String.compareTo`. */
  predicate Less(a: string, b: string)
  {
    if b == [] then false
    else if a == [] then true
    else if a[0] != b[0] then a[0] < b[0]
    else Less(a[1..], b[1..])
  }

  /** The strings agree before `k`, where `a` ends or has the smaller character. */
  predicate SmallerAt(a: string, b: string, k: nat)
  {
    k <= |a| && k < |b| && a[..k] == b[..k] && (k == |a| || a[k] < b[k])
  }

  /** The order is decided at the first difference. */
  lemma {:induction false} LessAt(a: string, b: string, k: nat)
    ensures SmallerAt(a, b, k) ==> Less(a, b)
    ensures Less(a, b) ==> exists i: nat :: SmallerAt(a, b, i)
    decreases |a|
  {
    if a == [] {
      assert b != [] ==> SmallerAt(a, b, 0);
    } else if b != [] {
      if a[0] != b[0] {
        assert k > 0 && k <= |a| && k <= |b| ==> a[..k][0] == a[0] && b[..k][0] == b[0];
        assert a[0] < b[0] ==> SmallerAt(a, b, 0);
      } else {
        LessAt(a[1..], b[1..], if k == 0 then 0 else k - 1);
        assert k > 0 && SmallerAt(a, b, k) ==> SmallerAt(a[1..], b[1..], k - 1) by {
          if k > 0 && SmallerAt(a, b, k) {
            assert a[1..][..k - 1] == a[..k][1..] && b[1..][..k - 1] == b[..k][1..];
          }
        }
        if i: nat :| SmallerAt(a[1..], b[1..], i) {
          SmallerBehind(a, b, i);
        }
      }
    }
  }

  lemma SmallerBehind(a: string, b: string, i: nat)
    requires a != [] && b != [] && a[0] == b[0] && SmallerAt(a[1..], b[1..], i)
    ensures SmallerAt(a, b, i + 1)
  {
    assert a[..i + 1] == [a[0]] + a[1..][..i] && b[..i + 1] == [b[0]] + b[1..][..i];
  }

  lemma {:induction false} LessTransitive(a: string, b: string, c: string)
    requires Less(a, b) && Less(b, c)
    ensures Less(a, c)
  {
    if a != [] && b != [] && c != [] && a[0] == b[0] == c[0] {
      LessTransitive(a[1..], b[1..], c[1..]);
    }
  }

  lemma {:induction false} LessTotal(a: string, b: string)
    ensures Less(a, b) || Less(b, a) || a == b
    ensures !(Less(a, b) && Less(b, a))
    ensures !Less(a, a)
  {
    if a != [] && b != [] && a[0] == b[0] {
      LessTotal(a[1..], b[1..]);
      assert a == [a[0]] + a[1..] && b == [b[0]] + b[1..];
    }
    if a != [] {
      LessTotal(a[1..], a[1..]);
    }
  }
}
