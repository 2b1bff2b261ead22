/** Which destinations a route covers: keys against addresses and blocks (platform/routes_macos.rs). */
module RouteCoverage {
  import opened Bytes
  import opened Results
  import opened Cidr
  import opened RoutingMessage
  import opened RouteSnapshot
  import opened RoutePath
  import opened SessionRequests
  import opened RouteIdentity
  import opened EndpointEgress

  // ----------------------------------------------------------------- any route

  lemma BitsDetermineBytes(a: Bytes, b: Bytes)
    requires |a| == |b| && forall i :: 0 <= i < 8 * |a| ==> AddressBit(a, i) == AddressBit(b, i)
    ensures a == b
  {
    forall j | 0 <= j < |a|
      ensures a[j] == b[j]
    {
      ByteBits(a, b, 8 * |a|, j, 8);
      BitsDetermineByte(a[j], b[j]);
    }
  }

  /** The route is not bound to an interface. */
  predicate Unscoped(h: Head)
  {
    h.flags & RTF_IFSCOPE == 0 || h.index == [0, 0]
  }

  /** The address agrees with the route's destination on every significant bit. */
  predicate Covered(h: Head, d: Ip)
    requires ValidHead(h) && Readable(h) && ValidIp(d) && |NetmaskOf(h)| == |DestinationOf(h)| == |d.bytes|
  {
    forall i :: 0 <= i < 8 * |d.bytes| && Significant(h, i) ==> AddressBit(WithoutZone(d.bytes), i) == AddressBit(DestinationOf(h), i)
  }

  lemma FamilyLength(h: Head)
    requires ValidHead(h) && Readable(h)
    ensures |NetmaskOf(h)| == |DestinationOf(h)| == AddressLength(h.slots[DST].value[1])
  {}

  /** The key of a route matches an address exactly when the route is unscoped, of the address's family, and agrees with it
      on the bits of the netmask. */
  lemma KeyCovers(s: Snapshot, d: Ip)
    requires Parse(s).Ok? && Key(s).Ok? && ValidIp(d)
    ensures Readable(Parse(s).value)
    ensures var h := Parse(s).value;
            KeyMatches(Key(s).value, d)
            <==> h.slots[DST].value[1] == FamilyByte(d) && Unscoped(h) && |NetmaskOf(h)| == |DestinationOf(h)| == |d.bytes| && Covered(h, d)
  {
    hide Parse, KeyOf, AddressBit, BitAnd, WithoutZone, RawAddress, Significant;
    KeyMeaning(s);
    var h, k := Parse(s).value, Key(s).value;
    FamilyLength(h);
    if k.family == FamilyByte(d) {
      MaskedAgrees(WithoutZone(d.bytes), k.mask, k.destination, h);
    }
  }

  lemma MaskedAgrees(a: Bytes, mask: Bytes, destination: Bytes, h: Head)
    requires ValidHead(h) && Readable(h) && |a| == |mask| == |destination| == |NetmaskOf(h)| == |DestinationOf(h)|
    requires forall i :: 0 <= i < 8 * |mask| ==> (AddressBit(mask, i) <==> Significant(h, i))
    requires forall i :: 0 <= i < 8 * |mask| ==> (AddressBit(destination, i) <==> Significant(h, i) && AddressBit(DestinationOf(h), i))
    ensures BitAnd(a, mask) == destination
            <==> forall i :: 0 <= i < 8 * |a| && Significant(h, i) ==> AddressBit(a, i) == AddressBit(DestinationOf(h), i)
  {
    hide AddressBit, BitAnd, Significant, NetmaskOf, DestinationOf;
    forall i | 0 <= i < 8 * |a|
      ensures AddressBit(BitAnd(a, mask), i) <==> AddressBit(a, i) && AddressBit(mask, i)
    {
      BitOfBitAnd(a, mask, i);
    }
    if forall i :: 0 <= i < 8 * |a| && Significant(h, i) ==> AddressBit(a, i) == AddressBit(DestinationOf(h), i) {
      BitsDetermineBytes(BitAnd(a, mask), destination);
    }
  }

  // ---------------------------------------------------------------- TUN routes

  lemma AndMaskedByte(b: bv8, i: nat, n: nat)
    ensures b & MaskedByte(0xff, i, n) == MaskedByte(b, i, n)
    ensures MaskedByte(b, i, n) & MaskedByte(0xff, i, n) == MaskedByte(b, i, n)
  {
    AndMask(b, Mask(n % 8));
  }

  lemma AndMask(b: bv8, m: bv8)
    ensures b & 0xff == b && b & (0xff & m) == b & m && (b & m) & (0xff & m) == b & m && b & 0 == 0
  {}

  /** Anding with the netmask clears the host bits. */
  lemma AndNetmask(b: Bytes, p: nat)
    ensures BitAnd(b, NetmaskBytes(|b|, p)) == Masked(b, p)
  {
    hide MaskedByte;
    forall i | 0 <= i < |b|
      ensures b[i] & NetmaskBytes(|b|, p)[i] == Masked(b, p)[i]
    {
      AndMaskedByte(b[i], i, p);
    }
  }

  lemma FirstBytesOfNetmask(p: nat)
    ensures !(MaskedByte(0xff, 0, p) == 0xfe && MaskedByte(0xff, 1, p) & 0xc0 == 0x80)
  {}

  lemma NetmaskHasNoZone(length: nat, p: nat)
    requires length == 4 || length == 16
    ensures WithoutZone(NetmaskBytes(length, p)) == NetmaskBytes(length, p)
  {
    hide MaskedByte;
    FirstBytesOfNetmask(p);
  }

  /** Clearing the zone and clearing the host bits commute. */
  lemma ZoneAndHostBits(b: Bytes, p: nat)
    requires |b| == 4 || |b| == 16
    ensures WithoutZone(Masked(b, p)) == Masked(WithoutZone(b), p)
  {
    if |b| == 16 {
      var x, y := Masked(b, p), Masked(WithoutZone(b), p);
      if p >= 16 {
        assert x[0] == b[0] && x[1] == b[1];
        ZeroStaysZero(2, p);
        ZeroStaysZero(3, p);
      } else {
        assert x[2] == 0 && x[3] == 0 && y[2] == 0 && y[3] == 0;
      }
      assert forall i :: 0 <= i < 16 && i != 2 && i != 3 ==> WithoutZone(x)[i] == y[i];
    }
  }

  lemma ZeroStaysZero(i: nat, p: nat)
    ensures MaskedByte(0, i, p) == 0
  {}

  lemma AndNetmaskAgain(b: Bytes, p: nat)
    requires |b| == 4 || |b| == 16
    ensures BitAnd(Masked(b, p), NetmaskBytes(|b|, p)) == Masked(b, p)
  {
    hide MaskedByte;
    forall i | 0 <= i < |b|
      ensures Masked(b, p)[i] & NetmaskBytes(|b|, p)[i] == Masked(b, p)[i]
    {
      AndMaskedByte(b[i], i, p);
    }
  }

  /** The table key of a TUN route for the block `c`: its network without a zone, its netmask, unscoped. */
  function TunKey(c: Cidr): RouteKey
    requires ValidCidr(c)
  {
    var n := |c.ip.bytes|;
    RouteKey(FamilyByte(c.ip), WithoutZone(Masked(c.ip.bytes, c.prefix)), NetmaskBytes(n, c.prefix), c.prefix == 8 * n, [0, 0])
  }

  lemma FullNetmask(n: nat)
    ensures NetmaskBytes(n, 8 * n) == Ones(n)
  {}

  /** The address bytes that `key` reads back from a socket address it was given. */
  lemma ReadsBack(ip: Ip)
    requires ValidIp(ip)
    ensures AddressBytes(IpAddress(ip), FamilyByte(ip)) == Ok(WithoutZone(ip.bytes))
  {
    hide RawAddress, IpAddress, WithoutZone;
    IpAddressBytes(ip);
  }

  lemma TunFlagsHost(c: Cidr)
    requires ValidCidr(c)
    ensures TunFlags(c) & RTF_HOST != 0 <==> c.prefix == 8 * |c.ip.bytes|
    ensures TunFlags(c) & RTF_IFSCOPE == 0 && TunFlags(c) & RTF_GATEWAY == 0 && TunFlags(c) & RTF_UP != 0 && TunFlags(c) & RTF_STATIC != 0
  {}

  /** `tun_route` asks for the table entry of the block it is given. */
  lemma TunRouteKey(c: Cidr, index: Bytes)
    requires ValidCidr(c) && |index| == 2
    ensures Key(TunRoute(c, index)) == Ok(TunKey(c))
  {
    hide TunRoute, Parse, TunFlags, IpAddress, AddressBytes, Masked, WithoutZone, BitAnd, LinkAddress;
    TunParses(c, index);
    TunFlagsHost(c);
    var b, p, mask := c.ip.bytes, c.prefix, NetmaskBytes(|c.ip.bytes|, c.prefix);
    AndNetmask(b, p);
    ReadsBack(SameFamilyIp(c.ip, Masked(b, p)));
    ReadsBack(SameFamilyIp(c.ip, mask));
    NetmaskHasNoZone(|b|, p);
    ZoneAndHostBits(b, p);
    AndNetmaskAgain(WithoutZone(b), p);
    if p == 8 * |b| {
      FullNetmask(|b|);
    }
  }

  /** The address without the zone embedded in a link-local one. */
  function ZoneFreeIp(ip: Ip): (r: Ip)
    requires ValidIp(ip)
    ensures ValidIp(r) && SameFamily(ip, r) && r.bytes == WithoutZone(ip.bytes)
  {
    SameFamilyIp(ip, WithoutZone(ip.bytes))
  }

  function ZoneFree(c: Cidr): (r: Cidr)
    requires ValidCidr(c)
    ensures ValidCidr(r) && r.prefix == c.prefix
  {
    Cidr(ZoneFreeIp(c.ip), c.prefix)
  }

  /** The key of a TUN route matches exactly the destinations its block matches, zones aside. */
  lemma TunKeyCovers(c: Cidr, d: Ip)
    requires ValidCidr(c) && ValidIp(d)
    ensures KeyMatches(TunKey(c), d) <==> Matches(ZoneFree(c), ZoneFreeIp(d))
  {
    hide Masked, WithoutZone, BitAnd, BytesMatch;
    if SameFamily(c.ip, d) {
      AndNetmask(WithoutZone(d.bytes), c.prefix);
      ZoneAndHostBits(c.ip.bytes, c.prefix);
      MaskedEqualIsMatch(WithoutZone(c.ip.bytes), WithoutZone(d.bytes), c.prefix);
    }
  }

  /** Zones matter only below a link-local prefix longer than sixteen bits. */
  predicate ZonesMatter(c: Cidr)
    requires ValidCidr(c)
  {
    LinkLocal(c.ip.bytes) && c.prefix > 16
  }

  lemma SameFirstBytes(a: Bytes, b: Bytes, p: nat)
    requires |a| == |b| && 16 < p <= 8 * |a| && BytesMatch(a, b, p)
    ensures a[0] == b[0] && a[1] == b[1]
  {}

  lemma SameBytesMatch(a: Bytes, b: Bytes, x: Bytes, y: Bytes, p: nat)
    requires |a| == |b| == |x| == |y| && p <= 8 * |a|
    requires forall i :: 0 <= i < (p + 7) / 8 ==> a[i] == x[i] && b[i] == y[i]
    ensures BytesMatch(a, b, p) <==> BytesMatch(x, y, p)
  {
    hide Mask;
    if p % 8 != 0 {
      assert a[p / 8] == x[p / 8] && b[p / 8] == y[p / 8];
    }
    assert forall i :: 0 <= i < p / 8 ==> a[i] == x[i] && b[i] == y[i];
  }

  lemma OnlyFirstBytesMatter(a: Bytes, b: Bytes, p: nat)
    requires |a| == |b| == 16 && p <= 16
    ensures BytesMatch(WithoutZone(a), WithoutZone(b), p) <==> BytesMatch(a, b, p)
  {
    hide BytesMatch;
    SameBytesMatch(WithoutZone(a), WithoutZone(b), a, b, p);
  }

  /** Otherwise a TUN route covers exactly the destinations of its block. */
  lemma TunKeyCoversBlock(c: Cidr, d: Ip)
    requires ValidCidr(c) && ValidIp(d) && !ZonesMatter(c)
    ensures KeyMatches(TunKey(c), d) <==> Matches(c, d)
  {
    hide KeyMatches, BytesMatch, WithoutZone, Bit;
    TunKeyCovers(c, d);
    if SameFamily(c.ip, d) && c.ip.V6? {
      var a, b, p := c.ip.bytes, d.bytes, c.prefix;
      ZoneCleared(a);
      ZoneCleared(b);
      if p <= 16 {
        OnlyFirstBytesMatter(a, b, p);
      } else if BytesMatch(WithoutZone(a), WithoutZone(b), p) {
        SameFirstBytes(WithoutZone(a), WithoutZone(b), p);
      } else if BytesMatch(a, b, p) {
        SameFirstBytes(a, b, p);
      }
    } else if SameFamily(c.ip, d) {
      ZoneCleared(c.ip.bytes);
      ZoneCleared(d.bytes);
    }
  }

  lemma NetmaskBit(length: nat, p: nat, i: nat)
    requires i < 8 * length
    ensures AddressBit(NetmaskBytes(length, p), i) <==> i < p
  {
    hide Bit, Mask;
    BitOfOnes(i % 8);
    BitOfMasked(0xff, p % 8, i % 8);
    BitOfMasked(0, 0, i % 8);
    BitOfZero(i % 8);
  }

  lemma BitOfZero(k: nat)
    requires k < 8
    ensures !Bit(0, k)
  {}

  lemma NetmaskTellsPrefix(length: nat, p: nat, q: nat)
    requires p <= 8 * length && q <= 8 * length && NetmaskBytes(length, p) == NetmaskBytes(length, q)
    ensures p == q
  {
    hide AddressBit, NetmaskBytes;
    if p < q {
      NetmaskBit(length, p, p);
      NetmaskBit(length, q, p);
    } else if q < p {
      NetmaskBit(length, p, q);
      NetmaskBit(length, q, q);
    }
  }

  /** TUN routes share a table entry exactly when their blocks, zones aside, cover the same destinations. */
  lemma TunKeysDiffer(a: Cidr, b: Cidr)
    requires ValidCidr(a) && ValidCidr(b)
    ensures TunKey(a) == TunKey(b) <==> SameDestinations(ZoneFree(a), ZoneFree(b))
  {
    hide Masked, WithoutZone, SameDestinations, KeyText, BytesMatch, SamePrefix, NetmaskBytes;
    var x, y := ZoneFree(a), ZoneFree(b);
    KeyIsCanonical(x, y);
    KeyEqualIsSameNetwork(x, y);
    ZoneAndHostBits(a.ip.bytes, a.prefix);
    ZoneAndHostBits(b.ip.bytes, b.prefix);
    if SameFamily(a.ip, b.ip) {
      if NetmaskBytes(|a.ip.bytes|, a.prefix) == NetmaskBytes(|b.ip.bytes|, b.prefix) {
        NetmaskTellsPrefix(|a.ip.bytes|, a.prefix, b.prefix);
      }
      if a.prefix == b.prefix {
        MaskedEqualIsMatch(x.ip.bytes, y.ip.bytes, a.prefix);
        BytesMatchIsSamePrefix(x.ip.bytes, y.ip.bytes, a.prefix);
      }
    }
  }
}
