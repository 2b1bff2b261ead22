/** What route keys and path comparison mean, in terms of the parsed message (platform/routes_macos.rs). */
module RouteIdentity {
  import opened Bytes
  import opened Results
  import opened Cidr
  import opened RoutingMessage
  import opened RouteSnapshot
  import opened RoutePath
  import opened RouteJournal

  // ------------------------------------------------------------------- zones

  /** Inside fe80::/10. */
  predicate LinkLocal(b: Bytes)
  {
    |b| == 16 && b[0] == 0xfe && Bit(b[1], 0) && !Bit(b[1], 1)
  }

  lemma LinkLocalBits(b: bv8)
    ensures b & 0xc0 == 0x80 <==> Bit(b, 0) && !Bit(b, 1)
  {}

  lemma ZoneCleared(b: Bytes)
    requires |b| == 4 || |b| == 16
    ensures WithoutZone(b) == if LinkLocal(b) then b[2 := 0][3 := 0] else b
  {
    hide Bit;
    if |b| == 16 {
      LinkLocalBits(b[1]);
    }
  }

  /** The same address, up to the zone embedded in a link-local one. */
  predicate SameHost(a: Bytes, b: Bytes)
  {
    |a| == |b| && forall i :: 0 <= i < |a| ==> a[i] == b[i] || ((i == 2 || i == 3) && LinkLocal(a) && LinkLocal(b))
  }

  lemma ZoneFreeIff(a: Bytes, b: Bytes)
    requires |a| == |b| && (|a| == 4 || |a| == 16)
    ensures WithoutZone(a) == WithoutZone(b) <==> SameHost(a, b)
  {
    hide Bit, WithoutZone;
    ZoneCleared(a);
    ZoneCleared(b);
    var x, y := WithoutZone(a), WithoutZone(b);
    if x == y {
      assert x[0] == a[0] && y[0] == b[0] && x[1] == a[1] && y[1] == b[1];
      forall i | 0 <= i < |a|
        ensures a[i] == b[i] || ((i == 2 || i == 3) && LinkLocal(a) && LinkLocal(b))
      {
        assert x[i] == y[i];
      }
    }
    if SameHost(a, b) {
      assert a[0] == b[0] && a[1] == b[1];
    }
  }

  // ------------------------------------------------------------------- paths

  /** Two socket addresses carry the same IP address. */
  predicate AddressesAgree(a: Bytes, b: Bytes)
  {
    && |a| > 1 && |b| > 1 && a[1] == b[1] && (a[1] == AF_INET || a[1] == AF_INET6)
    && SameHost(RawAddress(a, a[1]), RawAddress(b, a[1]))
  }

  /** No gateway, two link gateways, or the same IP gateway. */
  predicate GatewaysAgree(a: Option<Bytes>, b: Option<Bytes>)
  {
    match (a, b)
    case (None, None) => true
    case (Some(x), Some(y)) => (|x| > 1 && |y| > 1 && x[1] == y[1] == AF_LINK) || AddressesAgree(x, y)
    case _ => false
  }

  /** The second route has no source, or both have the same. */
  predicate SourcesAgree(a: Option<Bytes>, b: Option<Bytes>)
  {
    b.Some? ==> a.Some? && AddressesAgree(a.value, b.value)
  }

  /** Neither route is a gateway, reject or blackhole route without the other being one. */
  predicate KindsAgree(f: bv32, g: bv32)
  {
    && (f & RTF_GATEWAY != 0 <==> g & RTF_GATEWAY != 0)
    && (f & RTF_REJECT != 0 <==> g & RTF_REJECT != 0)
    && (f & RTF_BLACKHOLE != 0 <==> g & RTF_BLACKHOLE != 0)
  }

  lemma KindsIff(f: bv32, g: bv32)
    ensures f & ROUTING_FLAGS == g & ROUTING_FLAGS <==> KindsAgree(f, g)
  {}

  lemma SameAddressIff(a: Bytes, b: Bytes)
    ensures SameAddress(a, b) == Ok(true) <==> AddressesAgree(a, b)
  {
    hide RawAddress, WithoutZone, SameHost;
    if |a| > 1 && |b| > 1 && a[1] == b[1] && (a[1] == AF_INET || a[1] == AF_INET6) {
      ZoneFreeIff(RawAddress(a, a[1]), RawAddress(b, a[1]));
    }
  }

  lemma SameGatewayIff(a: Option<Bytes>, b: Option<Bytes>)
    ensures SameGateway(a, b) == Ok(true) <==> GatewaysAgree(a, b)
  {
    hide SameAddress, AddressesAgree;
    if a.Some? && b.Some? {
      SameAddressIff(a.value, b.value);
    }
  }

  lemma SameSourceIff(a: Option<Bytes>, b: Option<Bytes>)
    ensures SameSource(a, b) == Ok(true) <==> SourcesAgree(a, b)
  {
    hide SameAddress, AddressesAgree;
    if a.Some? && b.Some? {
      SameAddressIff(a.value, b.value);
    }
  }

  /** Interface, kind, gateway and source of two parsed routes agree. */
  predicate PathsAgree(l: Head, r: Head)
    requires ValidHead(l) && ValidHead(r)
  {
    && l.index == r.index && KindsAgree(l.flags, r.flags)
    && GatewaysAgree(l.slots[GATEWAY], r.slots[GATEWAY]) && SourcesAgree(l.slots[IFA], r.slots[IFA])
  }

  /** `same_path` says yes exactly for routes with one key whose interface, kind, gateway and source agree. */
  lemma SamePathIff(left: Snapshot, right: Snapshot)
    requires Parse(left).Ok? && Parse(right).Ok?
    ensures SamePath(left, right) == Ok(true)
            <==> Key(left).Ok? && Key(left) == Key(right) && PathsAgree(Parse(left).value, Parse(right).value)
  {
    hide Parse, KeyOf, SameGateway, SameSource, GatewaysAgree, SourcesAgree, KindsAgree;
    var l, r := Parse(left).value, Parse(right).value;
    KindsIff(l.flags, r.flags);
    SameGatewayIff(l.slots[GATEWAY], r.slots[GATEWAY]);
    SameSourceIff(l.slots[IFA], r.slots[IFA]);
  }

  /** Where the session added its route, the entry is treated as somebody else's exactly when interface, kind, gateway or
      source differ. */
  lemma ForeignIff(c: Change, t: Table)
    requires ValidTable(t) && ValidChange(c) && c.attempted && c.key in t
    ensures Parse(t[c.key]).Ok? && Parse(c.route).Ok?
    ensures Foreign(c, t) <==> !PathsAgree(Parse(t[c.key]).value, Parse(c.route).value)
  {
    hide Parse, KeyOf, SamePath, PathsAgree;
    assert Key(t[c.key]) == Ok(c.key);
    SamePathIff(t[c.key], c.route);
  }

  // -------------------------------------------------------------------- keys

  /** The zone-free destination of a parsed route. */
  function DestinationOf(h: Head): Bytes
    requires ValidHead(h) && Readable(h)
  {
    WithoutZone(RawAddress(h.slots[DST].value, h.slots[DST].value[1]))
  }

  /** The zone-free netmask of a parsed route; an absent one is zero. */
  function NetmaskOf(h: Head): Bytes
    requires ValidHead(h) && Readable(h)
  {
    WithoutZone(RawAddress(if h.slots[NETMASK].Some? then h.slots[NETMASK].value else [], h.slots[DST].value[1]))
  }

  /** The destination is an IP address. */
  predicate Readable(h: Head)
    requires ValidHead(h)
  {
    var dst := h.slots[DST];
    dst.Some? && |dst.value| > 1 && (dst.value[1] == AF_INET || dst.value[1] == AF_INET6)
  }

  /** Bit `i` of the address counts for the route. */
  predicate Significant(h: Head, i: nat)
    requires ValidHead(h) && Readable(h) && i < 8 * |NetmaskOf(h)|
  {
    h.flags & RTF_HOST != 0 || AddressBit(NetmaskOf(h), i)
  }

  lemma BitOfBitAnd(a: Bytes, m: Bytes, i: nat)
    requires |a| == |m| && i < 8 * |a|
    ensures AddressBit(BitAnd(a, m), i) <==> AddressBit(a, i) && AddressBit(m, i)
  {
    hide Bit;
    BitOfAnd(a[i / 8], m[i / 8], i % 8);
  }

  lemma BitOfAllOnes(n: nat, i: nat)
    requires i < 8 * n
    ensures AddressBit(Ones(n), i)
  {
    hide Bit;
    BitOfOnes(i % 8);
  }

  /** `key`, bit by bit: it can be read exactly when the destination is an IP address; its mask is the netmask, or all ones
      for a host route; its destination keeps the significant bits; it is scoped exactly by RTF_IFSCOPE. */
  lemma KeyMeaning(s: Snapshot)
    requires Parse(s).Ok?
    ensures Key(s).Ok? <==> Readable(Parse(s).value)
    ensures Key(s).Ok? ==>
              var h, k := Parse(s).value, Key(s).value;
              && k.family == h.slots[DST].value[1] && |k.mask| == |k.destination| == |NetmaskOf(h)| == |DestinationOf(h)|
              && (k.host <==> h.flags & RTF_HOST != 0)
              && k.scope == (if h.flags & RTF_IFSCOPE != 0 then h.index else [0, 0])
              && (forall i :: 0 <= i < 8 * |k.mask| ==> (AddressBit(k.mask, i) <==> Significant(h, i)))
              && (forall i :: 0 <= i < 8 * |k.mask| ==>
                    (AddressBit(k.destination, i) <==> Significant(h, i) && AddressBit(DestinationOf(h), i)))
  {
    hide Parse, AddressBit, RawAddress, WithoutZone, BitAnd;
    if Key(s).Ok? {
      var h, k := Parse(s).value, Key(s).value;
      forall i | 0 <= i < 8 * |k.mask|
        ensures AddressBit(k.mask, i) <==> Significant(h, i)
        ensures AddressBit(k.destination, i) <==> Significant(h, i) && AddressBit(DestinationOf(h), i)
      {
        BitOfAllOnes(|k.mask|, i);
        BitOfBitAnd(DestinationOf(h), k.mask, i);
      }
    }
  }
}
