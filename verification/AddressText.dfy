/** The texts of addresses, blocks and block keys read back as what they were printed from (util/IpUtil.kt). */
module AddressText {
  import opened Bytes
  import opened Text
  import opened Cidr

  /** A number in its usual form: it reads as `n`, and a leading zero stands only alone. */
  predicate Spells(s: string, base: nat, n: int)
  {
    s != "" && (s[0] == '0' ==> |s| == 1) && Value(s, base) == n
  }

  lemma {:induction false} DigitsSpell(n: nat, base: nat)
    requires base == 10 || base == 16
    ensures Spells(Digits(n, base), base, n)
  {
    ValueOfDigits(n, base);
    DigitsAreDigits(n, base);
    NoLeadingZero(n, base);
  }

  lemma {:induction false} NoLeadingZero(n: nat, base: nat)
    requires base == 10 || base == 16
    ensures Digits(n, base) != "" && (Digits(n, base)[0] == '0' ==> n == 0 && |Digits(n, base)| == 1)
  {
    hide DigitValue, Value;
    if n < base {
      DigitCharValue(n);
      ZeroChar(n);
    } else {
      NoLeadingZero(n / base, base);
    }
  }

  lemma ZeroChar(d: nat)
    requires d < 16
    ensures DigitChar(d) == '0' ==> d == 0
  {
    DigitCharValue(d);
  }

  /** An IPv4 text is four decimal numbers with dots between them, the bytes in order; an IPv6 text is eight hexadecimal
      numbers with colons, each two bytes. */
  lemma PlainStringReads(ip: Ip)
    requires ValidIp(ip)
    ensures ip.V4? ==>
              var parts := Split(PlainString(ip), '.');
              |parts| == 4 && forall i :: 0 <= i < 4 ==> Spells(parts[i], 10, ip.bytes[i] as int)
    ensures ip.V6? ==>
              var parts := Split(PlainString(ip), ':');
              |parts| == 8 && forall i :: 0 <= i < 8 ==> Spells(parts[i], 16, 256 * ip.bytes[2 * i] as int + ip.bytes[2 * i + 1] as int)
  {
    hide Digits, Spells, Join, Split, Value;
    var o := Octets(ip.bytes);
    if ip.V4? {
      V4PartsClean(o);
      SplitOfJoin(V4Parts(o), '.');
      forall i | 0 <= i < 4
        ensures Spells(V4Parts(o)[i], 10, ip.bytes[i] as int)
      {
        DigitsSpell(o[i], 10);
      }
    } else {
      V6PartsClean(o);
      SplitOfJoin(V6Parts(o), ':');
      forall i | 0 <= i < 8
        ensures Spells(V6Parts(o)[i], 16, 256 * ip.bytes[2 * i] as int + ip.bytes[2 * i + 1] as int)
      {
        DigitsSpell(Group(o[2 * i], o[2 * i + 1]), 16);
      }
    }
  }

  /** A block's text is the text of its address, a slash and the decimal prefix. */
  lemma CidrStringReads(c: Cidr)
    requires ValidCidr(c)
    ensures var parts := Split(CidrString(c), '/');
            |parts| == 2 && parts[0] == PlainString(c.ip) && Spells(parts[1], 10, c.prefix)
  {
    hide Digits, Spells, PlainString, Value;
    var p := Digits(c.prefix, 10);
    PlainStringShape(c.ip);
    NumberHasNoSeparator(c.prefix, 10);
    DigitsSpell(c.prefix, 10);
    hide Split;
    SplitOfPart(PlainString(c.ip), p, '/');
    SplitOfPart(p, "", '/');
  }

  lemma {:induction false} HexReads(o: seq<Octet>, i: nat)
    requires i < |o|
    ensures |Hex(o)| == 2 * |o| && Value(Hex(o)[2 * i..2 * i + 2], 16) == o[i]
  {
    hide HexPair, Value;
    var front, last := o[..|o| - 1], o[|o| - 1];
    HexSize(front);
    if i < |front| {
      HexReads(front, i);
      assert Hex(o)[2 * i..2 * i + 2] == Hex(front)[2 * i..2 * i + 2];
    } else {
      HexPairReads(last);
      assert Hex(o)[2 * i..2 * i + 2] == HexPair(last);
    }
  }

  lemma {:induction false} HexSize(o: seq<Octet>)
    ensures |Hex(o)| == 2 * |o|
  {
    hide HexPair;
    if o != [] {
      HexSize(o[..|o| - 1]);
    }
  }

  lemma HexPairReads(n: nat)
    requires n < 256
    ensures Value(HexPair(n), 16) == n
  {
    hide DigitChar, DigitValue, Value;
    var a, b := DigitChar(n / 16), DigitChar(n % 16);
    DigitCharValue(n / 16);
    DigitCharValue(n % 16);
    assert [] + [a] == [a] && [a] + [b] == [a, b];
    ValueOfNothing(16);
    ValueSnoc([], a, 16);
    ValueSnoc([a], b, 16);
  }

  lemma {:induction false} HexIsClean(o: seq<Octet>)
    ensures ':' !in Hex(o)
  {
    if o != [] {
      HexIsClean(o[..|o| - 1]);
      PairIsClean(o[|o| - 1]);
    }
  }

  lemma PairIsClean(n: nat)
    requires n < 256
    ensures ':' !in HexPair(n)
  {
    DigitCharValue(n / 16);
    DigitCharValue(n % 16);
  }

  /** A block's key is the family, the decimal prefix, and two hexadecimal digits for each byte of its network. */
  lemma KeyTextReads(c: Cidr)
    requires ValidCidr(c)
    ensures var parts := Split(KeyText(c), ':');
            && |parts| == 2
            && var front := Split(parts[0], '/');
               && |front| == 2 && front[0] == (if c.ip.V4? then "v4" else "v6") && Spells(front[1], 10, c.prefix)
               && |parts[1]| == 2 * |c.ip.bytes|
               && forall i :: 0 <= i < |c.ip.bytes| ==>
                    Value(parts[1][2 * i..2 * i + 2], 16) == Masked(c.ip.bytes, c.prefix)[i] as int
  {
    hide Digits, Spells, Value, Masked, Hex;
    var o := Octets(Masked(c.ip.bytes, c.prefix));
    var f, p := FamilyName(c.ip), Digits(c.prefix, 10);
    NumberHasNoSeparator(c.prefix, 10);
    DigitsSpell(c.prefix, 10);
    HexIsClean(o);
    HexSize(o);
    hide Split;
    FrontHasNoColon(f, p);
    assert KeyText(c) == (f + "/" + p) + ":" + Hex(o);
    SplitOfPart(f + "/" + p, Hex(o), ':');
    SplitOfPart(Hex(o), "", ':');
    SplitOfPart(f, p, '/');
    SplitOfPart(p, "", '/');
    forall i | 0 <= i < |o|
      ensures Value(Hex(o)[2 * i..2 * i + 2], 16) == Masked(c.ip.bytes, c.prefix)[i] as int
    {
      HexReads(o, i);
    }
  }

  lemma FrontHasNoColon(f: string, p: string)
    requires (f == "v4" || f == "v6") && ':' !in p
    ensures ':' !in f + "/" + p && '/' !in f
  {}
}
