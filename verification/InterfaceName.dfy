/** Interface names on macOS: acceptance (daemon/src/validation.rs) and normalisation (daemon/src/server.rs). */
module InterfaceName {
  import opened Text

  const MAX_INTERFACE_NAME_LENGTH := 15
  const MAX_INDEX := 0xffff_fffe
  const PREFIX := "utun"

  predicate AllDigits(s: string)
  {
    forall i :: 0 <= i < |s| ==> IsDigit(s[i], 10)
  }

  /** `validate_interface_name`; on macOS the index must also parse as a `u32` that has a successor. */
  predicate Passes(name: string, macos: bool)
  {
    && |name| <= MAX_INTERFACE_NAME_LENGTH
    && PREFIX <= name
    && name[4..] != "" && AllDigits(name[4..])
    && (macos ==> Value(name[4..], 10) <= MAX_INDEX)
  }

  predicate Accepted(name: string)
  {
    Passes(name, true)
  }

  function Index(name: string): nat
    requires Accepted(name)
  {
    Value(name[4..], 10)
  }

  /** `trim_start_matches('0')` */
  function TrimZeros(s: string): string
  {
    if s != "" && s[0] == '0' then TrimZeros(s[1..]) else s
  }

  function Normalised(name: string): string
    requires Accepted(name)
  {
    var index := TrimZeros(name[4..]);
    PREFIX + if index == "" then "0" else index
  }

  lemma {:induction false} ValueOfZeroCons(s: string)
    ensures Value(['0'] + s, 10) == Value(s, 10)
    decreases |s|
  {
    if s == "" {
      ValueOfNothing(10);
      ValueSnoc("", '0', 10);
      assert ['0'] + s == "" + ['0'];
    } else {
      var c := s[|s| - 1];
      var front := s[..|s| - 1];
      ValueOfZeroCons(front);
      ValueSnoc(front, c, 10);
      ValueSnoc(['0'] + front, c, 10);
      assert s == front + [c];
      assert ['0'] + s == ['0'] + front + [c];
    }
  }

  lemma {:induction false} TrimZerosKeepsValue(s: string)
    requires AllDigits(s)
    ensures AllDigits(TrimZeros(s)) && |TrimZeros(s)| <= |s|
    ensures Value(TrimZeros(s), 10) == Value(s, 10)
    ensures TrimZeros(s) != "" ==> TrimZeros(s)[0] != '0'
  {
    if s != "" && s[0] == '0' {
      TrimZerosKeepsValue(s[1..]);
      ValueOfZeroCons(s[1..]);
      assert s == ['0'] + s[1..];
    }
  }

  lemma DigitsOfSnoc(n: nat, c: char)
    requires IsDigit(c, 10)
    ensures Digits(n * 10 + DigitValue(c), 10) == (if n == 0 then [c] else Digits(n, 10) + [c])
  {
    var d := DigitValue(c);
    assert DigitChar(d) == c;
    assert (n * 10 + d) / 10 == n && (n * 10 + d) % 10 == d;
  }

  /** Digits without a leading zero are the decimal form of their value. */
  lemma {:induction false} TrimmedIsDecimal(s: string)
    requires s != "" && AllDigits(s) && s[0] != '0'
    ensures Value(s, 10) > 0 && Digits(Value(s, 10), 10) == s
    decreases |s|
  {
    hide Digits, Value, DigitChar;
    var c := s[|s| - 1];
    var front := s[..|s| - 1];
    assert s == front + [c];
    ValueSnoc(front, c, 10);
    DigitsOfSnoc(Value(front, 10), c);
    if front == "" {
      ValueOfNothing(10);
    } else {
      assert front[0] == s[0];
      TrimmedIsDecimal(front);
    }
  }

  /** A normalised name is the prefix and the decimal form of the index. */
  lemma NormalisedIsDecimal(name: string)
    requires Accepted(name)
    ensures Normalised(name) == PREFIX + Digits(Index(name), 10)
  {
    TrimZerosKeepsValue(name[4..]);
    var index := TrimZeros(name[4..]);
    if index == "" {
      ValueOfNothing(10);
    } else {
      TrimmedIsDecimal(index);
    }
  }

  /** Two accepted names normalise to the same string exactly when they denote the same index. */
  lemma SameNameIffSameIndex(a: string, b: string)
    requires Accepted(a) && Accepted(b)
    ensures Normalised(a) == Normalised(b) <==> Index(a) == Index(b)
  {
    NormalisedIsDecimal(a);
    NormalisedIsDecimal(b);
    if Normalised(a) == Normalised(b) {
      assert Digits(Index(a), 10) == Normalised(a)[4..] == Normalised(b)[4..] == Digits(Index(b), 10);
      DigitsInjective(Index(a), Index(b), 10);
    }
  }

  /** A normalised name is accepted, denotes the same index and is its own normal form. */
  lemma NormalisedStaysAccepted(name: string)
    requires Accepted(name)
    ensures Accepted(Normalised(name))
    ensures Index(Normalised(name)) == Index(name)
    ensures Normalised(Normalised(name)) == Normalised(name)
  {
    TrimZerosKeepsValue(name[4..]);
    NormalisedIsDecimal(name);
    ValueOfDigits(Index(name), 10);
    assert Normalised(name)[4..] == Digits(Index(name), 10);
    DigitsAreDigits(Index(name), 10);
    NormalisedIsDecimal(Normalised(name));
  }

  /** A set of names in normal form, such as the reservations. */
  predicate AllNormalised(names: set<string>)
  {
    forall n :: n in names ==> Accepted(n) && Normalised(n) == n
  }

  /** Reserving by normal form: a request is refused as a duplicate exactly when its interface index is already reserved,
      and an admitted one keeps one reservation per index. */
  lemma OneReservationPerIndex(names: set<string>, request: string)
    requires AllNormalised(names) && Accepted(request)
    ensures Normalised(request) in names <==> exists n :: n in names && Accepted(n) && Index(n) == Index(request)
    ensures AllNormalised(names + {Normalised(request)})
    ensures forall a, b :: a in names && b in names && Index(a) == Index(b) ==> a == b
  {
    NormalisedStaysAccepted(request);
    forall n | n in names && Index(n) == Index(request)
      ensures n == Normalised(request)
    {
      SameNameIffSameIndex(n, request);
    }
    forall a, b | a in names && b in names && Index(a) == Index(b)
      ensures a == b
    {
      SameNameIffSameIndex(a, b);
    }
  }
}
