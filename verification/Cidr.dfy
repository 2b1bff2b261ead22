/** Addresses, CIDR blocks and their canonical key (util/IpUtil.kt). */
module Cidr {
  import opened Bytes
  import opened Results
  import opened Text

  /** The protobuf `Ip`: a oneof of raw bytes that may also be unset. */
  datatype Ip = V4(bytes: Bytes) | V6(bytes: Bytes) | Unset

  datatype Cidr = Cidr(ip: Ip, prefix: nat)

  /** What `String.resolveToIp` builds: 4 or 16 raw bytes. */
  predicate ValidIp(ip: Ip)
  {
    (ip.V4? && |ip.bytes| == 4) || (ip.V6? && |ip.bytes| == 16)
  }

  /** What `String.toCidr` builds: the prefix is in range for the family. */
  predicate ValidCidr(c: Cidr)
  {
    ValidIp(c.ip) && c.prefix <= 8 * |c.ip.bytes|
  }

  predicate ValidCidrs(s: seq<Cidr>)
  {
    forall i :: 0 <= i < |s| ==> ValidCidr(s[i])
  }

  predicate SameFamily(a: Ip, b: Ip)
  {
    (a.V4? && b.V4?) || (a.V6? && b.V6?)
  }

  // ---------------------------------------------------------------- matching

  /** `Cidr.matches`: whole bytes first, then the remaining bits under a mask. */
  predicate Matches(c: Cidr, destination: Ip)
    requires c.ip.Unset? || ValidCidr(c)
    requires destination.Unset? || ValidIp(destination)
  {
    SameFamily(c.ip, destination) && BytesMatch(c.ip.bytes, destination.bytes, c.prefix)
  }

  predicate BytesMatch(cidr: Bytes, dst: Bytes, prefix: nat)
    requires |cidr| == |dst| && prefix <= 8 * |cidr|
  {
    var full, rest := prefix / 8, prefix % 8;
    && (forall i :: 0 <= i < full ==> cidr[i] == dst[i])
    && (rest == 0 || cidr[full] & Mask(rest) == dst[full] & Mask(rest))
  }

  /** Bit `i` of an address in network order. */
  predicate AddressBit(a: Bytes, i: nat)
    requires i < 8 * |a|
  {
    Bit(a[i / 8], i % 8)
  }

  /** The reference definition: the first `n` bits agree one by one. */
  predicate SamePrefix(a: Bytes, b: Bytes, n: nat)
    requires |a| == |b| && n <= 8 * |a|
  {
    forall i :: 0 <= i < n ==> AddressBit(a, i) == AddressBit(b, i)
  }

  lemma ByteBits(a: Bytes, b: Bytes, n: nat, j: nat, r: nat)
    requires |a| == |b| && n <= 8 * |a| && SamePrefix(a, b, n)
    requires j < |a| && r <= 8 && 8 * j + r <= n
    ensures SameBits(a[j], b[j], r)
  {
    forall k | 0 <= k < r
      ensures Bit(a[j], k) == Bit(b[j], k)
    {
      assert AddressBit(a, 8 * j + k) == AddressBit(b, 8 * j + k);
    }
  }

  lemma MatchGivesBits(a: Bytes, b: Bytes, n: nat)
    requires |a| == |b| && n <= 8 * |a| && BytesMatch(a, b, n)
    ensures SamePrefix(a, b, n)
  {
    var full, rest := n / 8, n % 8;
    if rest != 0 {
      MaskKeepsFirstBits(a[full], b[full], rest);
    }
    forall i | 0 <= i < n
      ensures AddressBit(a, i) == AddressBit(b, i)
    {
      assert i / 8 < full || (i / 8 == full && i % 8 < rest);
    }
  }

  lemma BitsGiveMatch(a: Bytes, b: Bytes, n: nat)
    requires |a| == |b| && n <= 8 * |a| && SamePrefix(a, b, n)
    ensures BytesMatch(a, b, n)
  {
    var full, rest := n / 8, n % 8;
    forall j | 0 <= j < full
      ensures a[j] == b[j]
    {
      ByteBits(a, b, n, j, 8);
      BitsDetermineByte(a[j], b[j]);
    }
    if rest != 0 {
      ByteBits(a, b, n, full, rest);
      MaskKeepsFirstBits(a[full], b[full], rest);
    }
  }

  /** Comparing whole bytes and a masked byte is comparing the first `n` bits. */
  lemma BytesMatchIsSamePrefix(a: Bytes, b: Bytes, n: nat)
    requires |a| == |b| && n <= 8 * |a|
    ensures BytesMatch(a, b, n) <==> SamePrefix(a, b, n)
  {
    if BytesMatch(a, b, n) {
      MatchGivesBits(a, b, n);
    }
    if SamePrefix(a, b, n) {
      BitsGiveMatch(a, b, n);
    }
  }

  /** `Cidr.matches` decides the bitwise prefix relation of rule 1 in section 5.1 of RFC 4632. */
  lemma MatchesIsBitPrefix(c: Cidr, destination: Ip)
    requires ValidCidr(c) && ValidIp(destination)
    ensures Matches(c, destination)
            <==> SameFamily(c.ip, destination) && SamePrefix(c.ip.bytes, destination.bytes, c.prefix)
  {
    if SameFamily(c.ip, destination) {
      BytesMatchIsSamePrefix(c.ip.bytes, destination.bytes, c.prefix);
    }
  }

  // ------------------------------------------------------------ normalisation

  /** The address with every bit from `n` on cleared. */
  function Masked(a: Bytes, n: nat): (m: Bytes)
    ensures |m| == |a|
  {
    seq(|a|, i requires 0 <= i < |a| => MaskedByte(a[i], i, n))
  }

  function MaskedByte(b: bv8, i: nat, n: nat): bv8
  {
    if i < n / 8 then b else if i == n / 8 then b & Mask(n % 8) else 0
  }

  /** `normalizeNetworkBytes`: clears the host bits of a copy in place. */
  method NormalizeNetworkBytes(bytes: Bytes, prefixLength: nat) returns (normalized: array<bv8>)
    ensures fresh(normalized)
    ensures normalized[..] == Masked(bytes, prefixLength)
  {
    normalized := new bv8[|bytes|](i requires 0 <= i < |bytes| => bytes[i]);
    var fullBytes, remainingBits := prefixLength / 8, prefixLength % 8;
    if fullBytes < normalized.Length {
      if remainingBits > 0 {
        normalized[fullBytes] := normalized[fullBytes] & Mask(remainingBits);
      }
      var zeroFrom := if remainingBits == 0 then fullBytes else fullBytes + 1;
      for index := zeroFrom to normalized.Length
        invariant forall i :: 0 <= i < zeroFrom ==> normalized[i] == MaskedByte(bytes[i], i, prefixLength)
        invariant forall i :: zeroFrom <= i < index ==> normalized[i] == 0
      {
        normalized[index] := 0;
      }
    }
  }

  lemma MaskedEqualIsMatch(a: Bytes, b: Bytes, n: nat)
    requires |a| == |b| && n <= 8 * |a|
    ensures Masked(a, n) == Masked(b, n) <==> BytesMatch(a, b, n)
  {
    var full, rest := n / 8, n % 8;
    if Masked(a, n) == Masked(b, n) {
      forall i | 0 <= i < |a|
        ensures MaskedByte(a[i], i, n) == MaskedByte(b[i], i, n)
      {
        assert Masked(a, n)[i] == Masked(b, n)[i];
      }
    }
    if BytesMatch(a, b, n) {
      forall i | 0 <= i < |a|
        ensures Masked(a, n)[i] == Masked(b, n)[i]
      {
        if i == full && rest == 0 {
          MaskKeepsFirstBits(a[i], b[i], 0);
        }
      }
    }
  }

  // ------------------------------------------------------------ canonical key

  lemma NumberHasNoSeparator(n: nat, base: nat)
    requires base == 10 || base == 16
    ensures '.' !in Digits(n, base) && ':' !in Digits(n, base) && '/' !in Digits(n, base)
  {
    DigitsAreDigits(n, base);
  }

  function FamilyName(ip: Ip): string
    requires !ip.Unset?
  {
    if ip.V4? then "v4" else "v6"
  }

  /** Two lower-case hexadecimal digits, `toString(16).padStart(2, '0')`. */
  function HexPair(n: nat): (s: string)
    requires n < 256
    ensures |s| == 2
  {
    [DigitChar(n / 16), DigitChar(n % 16)]
  }

  /** The padded form is what the printer and `padStart` give. */
  lemma HexPairIsPadded(n: nat)
    requires n < 256
    ensures var s := Digits(n, 16); HexPair(n) == (if |s| < 2 then "0" + s else s)
  {
    if n >= 16 {
      assert Digits(n / 16, 16) == [DigitChar(n / 16)];
    }
  }

  lemma HexPairInjective(m: nat, n: nat)
    requires m < 256 && n < 256 && HexPair(m) == HexPair(n)
    ensures m == n
  {
    assert HexPair(m)[0] == HexPair(n)[0] && HexPair(m)[1] == HexPair(n)[1];
    DigitCharValue(m / 16);
    DigitCharValue(n / 16);
    DigitCharValue(m % 16);
    DigitCharValue(n % 16);
  }

  function Hex(octets: seq<Octet>): string
  {
    if octets == [] then "" else Hex(octets[..|octets| - 1]) + HexPair(octets[|octets| - 1])
  }

  lemma {:induction false} HexInjective(a: seq<Octet>, b: seq<Octet>)
    requires Hex(a) == Hex(b)
    ensures a == b
  {
    if a != [] && b != [] {
      var x, y := a[..|a| - 1], b[..|b| - 1];
      var s, t := HexPair(a[|a| - 1]), HexPair(b[|b| - 1]);
      var whole := Hex(a);
      assert whole == Hex(x) + s == Hex(y) + t;
      assert s == whole[|whole| - 2..] == t;
      assert Hex(x) == whole[..|whole| - 2] == Hex(y);
      HexPairInjective(a[|a| - 1], b[|b| - 1]);
      HexInjective(x, y);
    }
  }

  function KeyText(c: Cidr): string
    requires !c.ip.Unset?
  {
    FamilyName(c.ip) + "/" + Digits(c.prefix, 10) + ":" + Hex(Octets(Masked(c.ip.bytes, c.prefix)))
  }

  /** `Cidr.normalizedKey`: builds the key text; a missing address is an error. */
  method NormalizedKey(c: Cidr) returns (ok: bool, key: string)
    ensures ok <==> !c.ip.Unset?
    ensures ok ==> key == KeyText(c)
  {
    hide Digits, HexPair, Masked;
    if c.ip.Unset? {
      return false, "";
    }
    var normalized := NormalizeNetworkBytes(c.ip.bytes, c.prefix);
    key := FamilyName(c.ip) + "/" + Digits(c.prefix, 10) + ":";
    ghost var head, octets := key, Octets(normalized[..]);
    for i := 0 to normalized.Length
      invariant key == head + Hex(octets[..i])
    {
      key := key + HexPair(normalized[i] as int);
      assert octets[..i + 1][..i] == octets[..i];
    }
    assert octets[..normalized.Length] == octets;
    ok := true;
  }

  lemma KeyShapeInjective(f: string, d: string, h: string, g: string, e: string, k: string)
    requires |f| == |g| && ':' !in d && ':' !in e
    requires f + "/" + d + ":" + h == g + "/" + e + ":" + k
    ensures f == g && d == e && h == k
  {
    var s := f + "/" + d + ":" + h;
    assert f == s[..|f|] && g == s[..|f|];
    assert s[|f| + 1..] == d + [':'] + h;
    assert s[|f| + 1..] == e + [':'] + k;
    SplitUnique(d, h, e, k, ':');
  }

  lemma KeyTextInjective(a: Cidr, b: Cidr)
    requires !a.ip.Unset? && !b.ip.Unset?
    requires KeyText(a) == KeyText(b)
    ensures SameFamily(a.ip, b.ip) && a.prefix == b.prefix
    ensures Masked(a.ip.bytes, a.prefix) == Masked(b.ip.bytes, b.prefix)
  {
    var x, y := Masked(a.ip.bytes, a.prefix), Masked(b.ip.bytes, b.prefix);
    NumberHasNoSeparator(a.prefix, 10);
    NumberHasNoSeparator(b.prefix, 10);
    KeyShapeInjective(FamilyName(a.ip), Digits(a.prefix, 10), Hex(Octets(x)), FamilyName(b.ip), Digits(b.prefix, 10), Hex(Octets(y)));
    DigitsInjective(a.prefix, b.prefix, 10);
    HexInjective(Octets(x), Octets(y));
    OctetsInjective(x, y);
    assert FamilyName(a.ip)[1] == FamilyName(b.ip)[1];
  }

  /** The key is equal exactly when family, prefix length and network bits are. */
  lemma KeyEqualIsSameNetwork(a: Cidr, b: Cidr)
    requires ValidCidr(a) && ValidCidr(b)
    ensures KeyText(a) == KeyText(b)
            <==> SameFamily(a.ip, b.ip) && a.prefix == b.prefix && SamePrefix(a.ip.bytes, b.ip.bytes, a.prefix)
  {
    if KeyText(a) == KeyText(b) {
      KeyTextInjective(a, b);
    }
    if SameFamily(a.ip, b.ip) && a.prefix == b.prefix {
      MaskedEqualIsMatch(a.ip.bytes, b.ip.bytes, a.prefix);
      BytesMatchIsSamePrefix(a.ip.bytes, b.ip.bytes, a.prefix);
    }
  }

  /** Both blocks match exactly the same destinations. */
  ghost predicate SameDestinations(a: Cidr, b: Cidr)
    requires ValidCidr(a) && ValidCidr(b)
  {
    forall d: Ip :: ValidIp(d) ==> (Matches(a, d) <==> Matches(b, d))
  }

  /** The same address with one bit inverted. */
  function WithBitFlipped(ip: Ip, i: nat): (r: Ip)
    requires ValidIp(ip) && i < 8 * |ip.bytes|
    ensures ValidIp(r) && SameFamily(ip, r)
    ensures r.bytes == ip.bytes[i / 8 := ip.bytes[i / 8] ^ Single(i % 8)]
  {
    var flipped := ip.bytes[i / 8 := ip.bytes[i / 8] ^ Single(i % 8)];
    if ip.V4? then V4(flipped) else V6(flipped)
  }

  lemma FlippedAddressBit(ip: Ip, i: nat, j: nat)
    requires ValidIp(ip) && i < 8 * |ip.bytes| && j < 8 * |ip.bytes|
    ensures AddressBit(WithBitFlipped(ip, i).bytes, j) == (if i == j then !AddressBit(ip.bytes, j) else AddressBit(ip.bytes, j))
  {
    hide Bit, Single, WithBitFlipped;
    FlippedByteBit(ip.bytes, i / 8, i % 8, j / 8, j % 8);
    SameIndex(i, j);
  }

  lemma FlippedByteBit(b: Bytes, q: nat, r: nat, u: nat, v: nat)
    requires q < |b| && u < |b| && r < 8 && v < 8
    ensures Bit(b[q := b[q] ^ Single(r)][u], v) == if q == u && r == v then !Bit(b[u], v) else Bit(b[u], v)
  {
    hide Bit, Single;
    FlippedBit(b[q], r, v);
  }

  lemma SameIndex(i: nat, j: nat)
    ensures i == j <==> i / 8 == j / 8 && i % 8 == j % 8
  {}

  /** A block that matches everything `b` matches is not longer than `b`. */
  lemma SameDestinationsBoundsPrefix(a: Cidr, b: Cidr)
    requires ValidCidr(a) && ValidCidr(b) && SameDestinations(a, b)
    ensures SameFamily(a.ip, b.ip)
    ensures b.prefix <= a.prefix
    ensures SamePrefix(b.ip.bytes, a.ip.bytes, b.prefix)
  {
    hide Matches, AddressBit;
    MatchesIsBitPrefix(a, a.ip);
    assert Matches(b, a.ip);
    MatchesIsBitPrefix(b, a.ip);
    if a.prefix < b.prefix {
      FlippedTellsApart(a, b);
    }
  }

  /** Flipping the bit behind the shorter prefix leaves the longer block. */
  lemma FlippedTellsApart(a: Cidr, b: Cidr)
    requires ValidCidr(a) && ValidCidr(b) && SameFamily(a.ip, b.ip) && a.prefix < b.prefix
    requires SamePrefix(b.ip.bytes, a.ip.bytes, b.prefix)
    ensures !SameDestinations(a, b)
  {
    hide Matches, AddressBit, WithBitFlipped;
    var d := WithBitFlipped(a.ip, a.prefix);
    forall j | 0 <= j < 8 * |a.ip.bytes|
      ensures AddressBit(d.bytes, j) == (if a.prefix == j then !AddressBit(a.ip.bytes, j) else AddressBit(a.ip.bytes, j))
    {
      FlippedAddressBit(a.ip, a.prefix, j);
    }
    MatchesIsBitPrefix(a, d);
    MatchesIsBitPrefix(b, d);
    assert AddressBit(b.ip.bytes, a.prefix) == AddressBit(a.ip.bytes, a.prefix);
  }

  /** `normalizedKey` is a canonical form: equal keys exactly for blocks with equal destination sets. */
  lemma KeyIsCanonical(a: Cidr, b: Cidr)
    requires ValidCidr(a) && ValidCidr(b)
    ensures KeyText(a) == KeyText(b) <==> SameDestinations(a, b)
  {
    KeyEqualIsSameNetwork(a, b);
    if KeyText(a) == KeyText(b) {
      forall d: Ip | ValidIp(d)
        ensures Matches(a, d) <==> Matches(b, d)
      {
        MatchesIsBitPrefix(a, d);
        MatchesIsBitPrefix(b, d);
      }
    }
    if SameDestinations(a, b) {
      SameDestinationsBoundsPrefix(a, b);
      SameDestinationsBoundsPrefix(b, a);
    }
  }

  // ------------------------------------------------------- packet destination

  /** `parsePacketDestination`: bytes 16..20 of an IPv4 header, 24..40 of an IPv6 header. */
  function PacketDestination(packet: Bytes): (d: Option<Ip>)
    ensures d.Some? ==> ValidIp(d.value)
    ensures d.Some? <==> |packet| >= 20 && (packet[0] >> 4 == 4 || (packet[0] >> 4 == 6 && |packet| >= 40))
  {
    if |packet| == 0 then None
    else if packet[0] >> 4 == 4 then (if |packet| >= 20 then Some(V4(packet[16..20])) else None)
    else if packet[0] >> 4 == 6 then (if |packet| >= 40 then Some(V6(packet[24..40])) else None)
    else None
  }

  /** An IPv4 packet (section 3.1 of RFC 791): twelve bytes, source, destination, then options and data. */
  predicate IsIpv4Packet(packet: Bytes, head: Bytes, source: Bytes, destination: Bytes, rest: Bytes)
  {
    && |head| == 12 && |source| == |destination| == 4
    && head[0] >> 4 == 4 && packet == head + source + destination + rest
  }

  /** An IPv6 packet (section 3 of RFC 8200): eight bytes, source, destination, then the payload. */
  predicate IsIpv6Packet(packet: Bytes, head: Bytes, source: Bytes, destination: Bytes, rest: Bytes)
  {
    && |head| == 8 && |source| == |destination| == 16
    && head[0] >> 4 == 6 && packet == head + source + destination + rest
  }

  /** The destination found is the one the header carries. */
  lemma DestinationOfHeader(packet: Bytes, head: Bytes, source: Bytes, destination: Bytes, rest: Bytes)
    ensures IsIpv4Packet(packet, head, source, destination, rest) ==> PacketDestination(packet) == Some(V4(destination))
    ensures IsIpv6Packet(packet, head, source, destination, rest) ==> PacketDestination(packet) == Some(V6(destination))
  {
    if IsIpv4Packet(packet, head, source, destination, rest) {
      assert packet[16..20] == destination && packet[0] == head[0];
    }
    if IsIpv6Packet(packet, head, source, destination, rest) {
      assert packet[24..40] == destination && packet[0] == head[0];
      VersionsDiffer(head[0]);
    }
  }

  lemma VersionsDiffer(b: bv8)
    requires b >> 4 == 6
    ensures b >> 4 != 4
  {}

  // ------------------------------------------------------------------ printer

  function V4Parts(octets: seq<Octet>): (parts: seq<string>)
    ensures |parts| == |octets|
  {
    seq(|octets|, i requires 0 <= i < |octets| => Digits(octets[i], 10))
  }

  function Group(high: nat, low: nat): nat
  {
    high * 256 + low
  }

  function V6Parts(octets: seq<Octet>): (parts: seq<string>)
    ensures |parts| == |octets| / 2
  {
    seq(|octets| / 2, i requires 0 <= i < |octets| / 2 => Digits(Group(octets[2 * i], octets[2 * i + 1]), 16))
  }

  /** `Ip.toPlainString` */
  function PlainString(ip: Ip): string
    requires ValidIp(ip)
  {
    if ip.V4? then Join(V4Parts(Octets(ip.bytes)), '.') else Join(V6Parts(Octets(ip.bytes)), ':')
  }

  /** `Cidr.toCidrString` */
  function CidrString(c: Cidr): string
    requires ValidCidr(c)
  {
    PlainString(c.ip) + "/" + Digits(c.prefix, 10)
  }

  lemma V4PartsInjective(a: seq<Octet>, b: seq<Octet>)
    requires |a| == |b| && V4Parts(a) == V4Parts(b)
    ensures a == b
  {
    forall i | 0 <= i < |a|
      ensures a[i] == b[i]
    {
      assert V4Parts(a)[i] == V4Parts(b)[i];
      DigitsInjective(a[i], b[i], 10);
    }
  }

  lemma V6GroupInjective(a: seq<Octet>, b: seq<Octet>, i: nat)
    requires |a| == |b| && V6Parts(a) == V6Parts(b) && i < |a| / 2
    ensures a[2 * i] == b[2 * i] && a[2 * i + 1] == b[2 * i + 1]
  {
    assert V6Parts(a)[i] == V6Parts(b)[i];
    DigitsInjective(Group(a[2 * i], a[2 * i + 1]), Group(b[2 * i], b[2 * i + 1]), 16);
  }

  lemma V6PartsInjective(a: seq<Octet>, b: seq<Octet>)
    requires |a| == |b| && |a| % 2 == 0 && V6Parts(a) == V6Parts(b)
    ensures a == b
  {
    forall j | 0 <= j < |a|
      ensures a[j] == b[j]
    {
      V6GroupInjective(a, b, j / 2);
    }
  }

  /** No separator can occur inside a printed group. */
  lemma V4PartsClean(o: seq<Octet>)
    ensures forall i :: 0 <= i < |o| ==> '.' !in V4Parts(o)[i] && ':' !in V4Parts(o)[i] && '/' !in V4Parts(o)[i]
  {
    forall i | 0 <= i < |o|
      ensures '.' !in V4Parts(o)[i] && ':' !in V4Parts(o)[i] && '/' !in V4Parts(o)[i]
    {
      NumberHasNoSeparator(o[i], 10);
    }
  }

  lemma V6PartsClean(o: seq<Octet>)
    ensures forall i :: 0 <= i < |o| / 2 ==> ':' !in V6Parts(o)[i] && '/' !in V6Parts(o)[i]
  {
    forall i | 0 <= i < |o| / 2
      ensures ':' !in V6Parts(o)[i] && '/' !in V6Parts(o)[i]
    {
      NumberHasNoSeparator(Group(o[2 * i], o[2 * i + 1]), 16);
    }
  }

  lemma PlainStringShape(ip: Ip)
    requires ValidIp(ip)
    ensures '/' !in PlainString(ip)
    ensures ip.V4? <==> ':' !in PlainString(ip)
  {
    var o := Octets(ip.bytes);
    if ip.V4? {
      V4PartsClean(o);
      JoinChars(V4Parts(o), '.', '/');
      JoinChars(V4Parts(o), '.', ':');
    } else {
      V6PartsClean(o);
      var parts := V6Parts(o);
      JoinChars(parts, ':', '/');
      assert PlainString(ip) == parts[0] + [':'] + Join(parts[1..], ':');
      assert PlainString(ip)[|parts[0]|] == ':';
    }
  }

  lemma PlainStringInjective(a: Ip, b: Ip)
    requires ValidIp(a) && ValidIp(b) && PlainString(a) == PlainString(b)
    ensures a == b
  {
    PlainStringShape(a);
    PlainStringShape(b);
    var o, p := Octets(a.bytes), Octets(b.bytes);
    if a.V4? {
      V4PartsClean(o);
      V4PartsClean(p);
      JoinInjective(V4Parts(o), V4Parts(p), '.');
      V4PartsInjective(o, p);
    } else {
      V6PartsClean(o);
      V6PartsClean(p);
      JoinInjective(V6Parts(o), V6Parts(p), ':');
      V6PartsInjective(o, p);
    }
    OctetsInjective(a.bytes, b.bytes);
  }

  /** Distinct blocks print differently. */
  lemma CidrStringInjective(a: Cidr, b: Cidr)
    requires ValidCidr(a) && ValidCidr(b) && CidrString(a) == CidrString(b)
    ensures a == b
  {
    PlainStringShape(a.ip);
    PlainStringShape(b.ip);
    assert CidrString(a) == PlainString(a.ip) + ['/'] + Digits(a.prefix, 10);
    assert CidrString(b) == PlainString(b.ip) + ['/'] + Digits(b.prefix, 10);
    SplitUnique(PlainString(a.ip), Digits(a.prefix, 10), PlainString(b.ip), Digits(b.prefix, 10), '/');
    PlainStringInjective(a.ip, b.ip);
    DigitsInjective(a.prefix, b.prefix, 10);
  }
}
