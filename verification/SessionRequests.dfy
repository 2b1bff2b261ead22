/** The routes a session asks for: endpoint host routes and TUN routes (platform/endpoint_macos.rs, platform/routes_macos.rs). */
module SessionRequests {
  import opened Bytes
  import opened Results
  import opened Cidr
  import opened RoutingMessage
  import opened RouteSnapshot
  import opened RoutePath

  function FamilyByte(ip: Ip): bv8
    requires ValidIp(ip)
  {
    if ip.V4? then AF_INET else AF_INET6
  }

  /** `ip_address`: a `sockaddr_in` or `sockaddr_in6`. */
  function IpAddress(ip: Ip): (a: Bytes)
    requires ValidIp(ip)
    ensures |a| == (if ip.V4? then 16 else 28) && SelfSized(a) && a[1] == FamilyByte(ip)
  {
    if ip.V4? then [16, AF_INET, 0, 0] + ip.bytes + Zeros(8)
    else [28, AF_INET6] + Zeros(6) + ip.bytes + Zeros(4)
  }

  lemma IpAddressBytes(ip: Ip)
    requires ValidIp(ip)
    ensures RawAddress(IpAddress(ip), FamilyByte(ip)) == ip.bytes
  {
    var a, f := IpAddress(ip), FamilyByte(ip);
    forall i | 0 <= i < |ip.bytes|
      ensures RawAddress(a, f)[i] == ip.bytes[i]
    {
    }
  }

  function SameFamilyIp(like: Ip, bytes: Bytes): (r: Ip)
    requires ValidIp(like) && |bytes| == |like.bytes|
    ensures ValidIp(r) && r.bytes == bytes && SameFamily(r, like)
  {
    if like.V4? then V4(bytes) else V6(bytes)
  }

  /** A message header written from zeros. */
  function FreshHeader(total: nat, kind: bv8, index: Bytes, flags: bv32, addrs: bv8): (h: Bytes)
    requires total < 0x1_0000 && |index| == 2
    ensures |h| == HEADER
  {
    var h1 := Put(Zeros(HEADER), 0, LengthBytes(total));
    var h2 := Put(h1, 2, [RTM_VERSION, kind]);
    var h3 := Put(h2, 4, index);
    var h4 := Put(h3, 8, WordBytes(flags));
    Put(h4, 12, [addrs, 0, 0, 0])
  }

  // ------------------------------------------------------------ endpoint route

  /** `EndpointRoute`: the egress resolved for one endpoint before the TUN existed. */
  datatype EndpointRoute = EndpointRoute(
    destination: Ip,
    interface: Bytes,
    gateway: Bytes,
    viaGateway: bool,
    source: Option<Bytes>,
    mtu: Bytes,
    hopcount: Bytes)

  /** What `lookup` returns: addresses taken from a parsed reply, or a link address. */
  predicate Resolved(e: EndpointRoute)
  {
    && ValidIp(e.destination) && |e.interface| == 2 && |e.mtu| == 4 && |e.hopcount| == 4
    && SelfSized(e.gateway) && Family(e.gateway) in {Some(AF_LINK), Some(AF_INET), Some(AF_INET6)}
    && (e.source.Some? ==> SelfSized(e.source.value))
  }

  function EndpointFlags(e: EndpointRoute): bv32
  {
    if e.viaGateway then RTF_UP | RTF_HOST | RTF_STATIC | RTF_GATEWAY else RTF_UP | RTF_HOST | RTF_STATIC
  }

  function EndpointSlots(e: EndpointRoute): (slots: Slots)
    requires Resolved(e)
    ensures |slots| == SLOTS && WellFormedSlots(slots)
  {
    var mask := SameFamilyIp(e.destination, Ones(|e.destination.bytes|));
    [Some(IpAddress(e.destination)), Some(e.gateway), Some(IpAddress(mask)), None, Some(LinkAddress(e.interface)), e.source, None, None]
  }

  /** The two route metrics and their presence bits, written only when non-zero. */
  function WithMetrics(h: Bytes, e: EndpointRoute): (r: Bytes)
    requires |h| == HEADER && |e.mtu| == 4 && |e.hopcount| == 4
    ensures |r| == HEADER && r[..32] == h[..32]
  {
    var h1 := if e.mtu != Zeros(4) then Put(h, 40, e.mtu) else h;
    var h2 := if e.hopcount != Zeros(4) then Put(h1, 44, e.hopcount) else h1;
    Put(h2, 32, [(if e.mtu != Zeros(4) then 1 else 0) | (if e.hopcount != Zeros(4) then 2 else 0), 0, 0, 0])
  }

  /** `EndpointRoute::message(RTM_ADD)` */
  function EndpointMessage(e: EndpointRoute): Result<Bytes>
    requires Resolved(e)
  {
    var slots := EndpointSlots(e);
    var total := HEADER + |Encode(slots)|;
    if total >= 0x1_0000 then Err
    else Ok(WithMetrics(FreshHeader(total, RTM_ADD, e.interface, EndpointFlags(e), AddrsOf(Present(slots))), e) + Encode(slots))
  }

  // ------------------------------------------------------------------ TUN route

  /** The destination and netmask a `Route` of the route manager reports. */
  function NetmaskBytes(length: nat, prefix: nat): (m: Bytes)
    ensures |m| == length
  {
    Masked(Ones(length), prefix)
  }

  function TunFlags(c: Cidr): bv32
    requires ValidCidr(c)
  {
    if c.prefix == 8 * |c.ip.bytes| then RTF_UP | RTF_STATIC | RTF_HOST else RTF_UP | RTF_STATIC
  }

  function TunSlots(c: Cidr, index: Bytes): (slots: Slots)
    requires ValidCidr(c) && |index| == 2
    ensures |slots| == SLOTS && WellFormedSlots(slots)
  {
    var mask := NetmaskBytes(|c.ip.bytes|, c.prefix);
    [Some(IpAddress(SameFamilyIp(c.ip, BitAnd(c.ip.bytes, mask)))), Some(LinkAddress(index)), Some(IpAddress(SameFamilyIp(c.ip, mask))),
      None, None, None, None, None]
  }

  /** `tun_route` for an interface whose index is known. */
  function TunRoute(c: Cidr, index: Bytes): (s: Snapshot)
    requires ValidCidr(c) && |index| == 2
  {
    var slots := TunSlots(c, index);
    TunSize(c, index);
    FreshHeader(HEADER + |Encode(slots)|, 0, index, TunFlags(c), AddrsOf(Present(slots))) + Encode(slots)
  }

  lemma EncodeThree(a: Bytes, b: Bytes, c: Bytes)
    ensures Encode([Some(a), Some(b), Some(c), None, None, None, None, None]) == Padded(a) + Padded(b) + Padded(c)
  {
    hide Padded, Encode;
    var none: Slots := [None, None, None, None, None];
    EncodeNothing(none);
    EncodeFront(a, b, c, none);
    assert [Some(a), Some(b), Some(c), None, None, None, None, None] == [Some(a), Some(b), Some(c)] + none;
  }

  lemma {:induction false} EncodeNothing(slots: Slots)
    requires forall i :: 0 <= i < |slots| ==> slots[i].None?
    ensures Encode(slots) == []
  {
    if slots != [] {
      EncodeNothing(slots[1..]);
    }
  }

  lemma TunSize(c: Cidr, index: Bytes)
    requires ValidCidr(c) && |index| == 2
    ensures |Encode(TunSlots(c, index))| <= 76
  {
    var slots := TunSlots(c, index);
    EncodeThree(slots[0].value, slots[1].value, slots[2].value);
  }

  // ------------------------------------------------------------- what they say

  /** A message built from a header and its slots parses back to them. */
  lemma BuiltParses(h: Bytes, index: Bytes, flags: bv32, slots: Slots)
    requires |h| == HEADER && |slots| == SLOTS && WellFormedSlots(slots)
    requires h[4..6] == index && h[8..12] == WordBytes(flags) && h[12] == AddrsOf(Present(slots))
    ensures Parse(h + Encode(slots)) == Ok(Head(index, flags, slots))
  {
    hide PresentIn, Encode, Decode, Present, AddrsOf;
    HeadSlices(h, Encode(slots));
    PresentRoundTrip(Present(slots));
    DecodeEncode(slots, []);
    assert Encode(slots) + [] == Encode(slots);
    WordRoundTrip(flags);
  }

  lemma FreshHeaderFields(total: nat, kind: bv8, index: Bytes, flags: bv32, addrs: bv8)
    requires total < 0x1_0000 && |index| == 2
    ensures var h := FreshHeader(total, kind, index, flags, addrs);
            h[2] == RTM_VERSION && h[4..6] == index && h[8..12] == WordBytes(flags) && h[12] == addrs
  {}

  lemma SameFront(g: Bytes, h: Bytes)
    requires |g| == |h| == HEADER && g[..32] == h[..32]
    ensures g[4..6] == h[4..6] && g[8..12] == h[8..12] && g[12] == h[12]
  {
    assert g[4..6] == g[..32][4..6] && h[4..6] == h[..32][4..6];
    assert g[8..12] == g[..32][8..12] && h[8..12] == h[..32][8..12];
    assert g[12] == g[..32][12] && h[12] == h[..32][12];
  }

  lemma EndpointParses(e: EndpointRoute)
    requires Resolved(e) && EndpointMessage(e).Ok?
    ensures Parse(EndpointMessage(e).value) == Ok(Head(e.interface, EndpointFlags(e), EndpointSlots(e)))
  {
    hide Encode, Present, AddrsOf, EndpointSlots, EndpointFlags, FreshHeader, WithMetrics, Parse;
    var slots := EndpointSlots(e);
    var total, flags, addrs := HEADER + |Encode(slots)|, EndpointFlags(e), AddrsOf(Present(slots));
    FreshHeaderFields(total, RTM_ADD, e.interface, flags, addrs);
    var h := FreshHeader(total, RTM_ADD, e.interface, flags, addrs);
    var g := WithMetrics(h, e);
    SameFront(g, h);
    BuiltParses(g, e.interface, flags, slots);
  }

  lemma TunParses(c: Cidr, index: Bytes)
    requires ValidCidr(c) && |index| == 2
    ensures Parse(TunRoute(c, index)) == Ok(Head(index, TunFlags(c), TunSlots(c, index)))
  {
    hide Encode, Present, AddrsOf, TunSlots, TunFlags, FreshHeader;
    var slots := TunSlots(c, index);
    TunSize(c, index);
    var total, addrs := HEADER + |Encode(slots)|, AddrsOf(Present(slots));
    FreshHeaderFields(total, 0, index, TunFlags(c), addrs);
    BuiltParses(FreshHeader(total, 0, index, TunFlags(c), addrs), index, TunFlags(c), slots);
  }

  /** The key of the unscoped host route to one address. */
  function HostKey(ip: Ip): RouteKey
    requires ValidIp(ip)
  {
    RouteKey(FamilyByte(ip), WithoutZone(ip.bytes), Ones(|ip.bytes|), true, [0, 0])
  }

  lemma BitAndOnes(a: Bytes)
    ensures BitAnd(a, Ones(|a|)) == a
  {
    forall i | 0 <= i < |a|
      ensures BitAnd(a, Ones(|a|))[i] == a[i]
    {
      AndAllOnes(a[i]);
    }
  }

  lemma AndAllOnes(b: bv8)
    ensures b & 0xff == b
  {}

  lemma EndpointFlagBits(e: EndpointRoute)
    ensures EndpointFlags(e) & RTF_HOST != 0 && EndpointFlags(e) & RTF_IFSCOPE == 0
    ensures (EndpointFlags(e) & RTF_GATEWAY != 0) == e.viaGateway
  {}

  /** The endpoint request is the unscoped host route to the endpoint. */
  lemma EndpointKey(e: EndpointRoute)
    requires Resolved(e) && EndpointMessage(e).Ok?
    ensures Key(EndpointMessage(e).value) == Ok(HostKey(e.destination))
  {
    hide EndpointFlags, EndpointMessage, WithoutZone, Ones, IpAddress, BitAnd;
    EndpointParses(e);
    EndpointFlagBits(e);
    IpAddressBytes(e.destination);
    BitAndOnes(WithoutZone(e.destination.bytes));
  }

  /** A TUN route can always be recognised when it is taken away again. */
  lemma TunIsComparable(c: Cidr, index: Bytes)
    requires ValidCidr(c) && |index| == 2
    ensures ComparablePath(TunRoute(c, index))
  {
    hide TunRoute, Parse;
    TunParses(c, index);
  }

  /** An endpoint's route can be recognised exactly when its source is an IP address or absent. */
  lemma EndpointIsComparable(e: EndpointRoute)
    requires Resolved(e) && EndpointMessage(e).Ok?
    ensures ComparablePath(EndpointMessage(e).value) <==> ComparableSource(e.source)
  {
    hide EndpointMessage, Parse;
    EndpointParses(e);
  }

  /** A resolved source that is a link address makes the endpoint's route unrecognisable. */
  lemma LinkSourceIsNotComparable(e: EndpointRoute)
    requires Resolved(e) && EndpointMessage(e).Ok? && e.source == Some(LinkAddress(e.interface))
    ensures !ComparablePath(EndpointMessage(e).value)
  {
    hide EndpointMessage, ComparablePath;
    EndpointIsComparable(e);
  }

  // --------------------------------------------------------- building in place

  lemma PaddedAddress(ip: Ip)
    requires ValidIp(ip)
    ensures Padded(IpAddress(ip)) == IpAddress(ip)
  {}

  lemma EncodeLinkAndSource(link: Bytes, source: Option<Bytes>)
    ensures Encode([None, Some(link), source, None, None]) == Padded(link) + (if source.Some? then Padded(source.value) else [])
  {
    hide Encode, Padded;
    var last: Slots := [None, None];
    EncodeNothing(last);
    EncodeCons(source, last);
    EncodeCons(Some(link), [source] + last);
    EncodeCons(None, [Some(link)] + ([source] + last));
    assert [None, Some(link), source, None, None] == [None] + ([Some(link)] + ([source] + last));
  }

  lemma EncodeFront(a: Bytes, b: Bytes, c: Bytes, rest: Slots)
    ensures Encode([Some(a), Some(b), Some(c)] + rest) == Padded(a) + Padded(b) + Padded(c) + Encode(rest)
  {
    hide Encode, Padded;
    EncodeCons(Some(c), rest);
    EncodeCons(Some(b), [Some(c)] + rest);
    EncodeCons(Some(a), [Some(b)] + ([Some(c)] + rest));
    assert [Some(a), Some(b), Some(c)] + rest == [Some(a)] + ([Some(b)] + ([Some(c)] + rest));
  }

  lemma EncodeEndpoint(e: EndpointRoute)
    requires Resolved(e)
    ensures var slots := EndpointSlots(e);
            Encode(slots) == Padded(slots[DST].value) + Padded(e.gateway) + Padded(slots[NETMASK].value)
                             + (Padded(LinkAddress(e.interface)) + (if e.source.Some? then Padded(e.source.value) else []))
  {
    hide Encode, Padded, IpAddress, LinkAddress;
    var slots := EndpointSlots(e);
    var rest := [None, Some(LinkAddress(e.interface)), e.source, None, None];
    EncodeLinkAndSource(LinkAddress(e.interface), e.source);
    EncodeFront(slots[DST].value, e.gateway, slots[NETMASK].value, rest);
    assert slots == [Some(slots[DST].value), Some(e.gateway), Some(slots[NETMASK].value)] + rest;
  }

  lemma EncodeCons(first: Option<Bytes>, rest: Slots)
    ensures Encode([first] + rest) == if first.Some? then Padded(first.value) + Encode(rest) else Encode(rest)
  {
    assert ([first] + rest)[1..] == rest;
  }

  /** The presence bits that both builders start with. */
  const COMMON_ADDRS: bv8 := RTA_DST | RTA_GATEWAY | RTA_NETMASK

  lemma {:induction false} AddrsOfAbsent(present: seq<bool>, absent: nat)
    requires |present| + absent <= SLOTS
    ensures AddrsOf(present + seq(absent, _ => false)) == AddrsOf(present)
    decreases absent
  {
    var all := present + seq(absent, _ => false);
    if absent > 0 {
      AddrsOfAbsent(present, absent - 1);
      assert all[..|all| - 1] == present + seq(absent - 1, _ => false);
    } else {
      assert all == present;
    }
  }

  lemma AddrsOfOne(present: seq<bool>, last: bool)
    requires |present| < SLOTS
    ensures AddrsOf(present + [last]) == if last then AddrsOf(present) | Single(7 - |present|) else AddrsOf(present)
  {
    hide AddrsOf, Single;
    AddrsOfMore(present + [last], |present|);
    assert (present + [last])[..|present|] == present;
  }

  lemma AddrsOfMore(present: seq<bool>, n: nat)
    requires |present| == n + 1 <= SLOTS
    ensures AddrsOf(present) == if present[n] then AddrsOf(present[..n]) | Single(7 - n) else AddrsOf(present[..n])
  {
    hide Single;
  }

  lemma AddrsOfThree()
    ensures AddrsOf([true, true, true]) == COMMON_ADDRS
  {
    hide AddrsOf;
    AddrsOfNone();
    AddrsOfOne([], true);
    AddrsOfOne([true], true);
    AddrsOfOne([true, true], true);
    assert [] + [true] == [true] && [true] + [true] == [true, true] && [true, true] + [true] == [true, true, true];
  }

  lemma AddrsOfNone()
    ensures AddrsOf([]) == 0
  {}

  /** The bits `tun_route` writes are those of its slots. */
  lemma TunAddrs(c: Cidr, index: Bytes)
    requires ValidCidr(c) && |index| == 2
    ensures AddrsOf(Present(TunSlots(c, index))) == COMMON_ADDRS
  {
    hide AddrsOf;
    AddrsOfThree();
    AddrsOfAbsent([true, true, true], 5);
    assert Present(TunSlots(c, index)) == [true, true, true] + seq(5, _ => false);
  }

  /** The bits `message` writes are those of its slots. */
  lemma EndpointAddrs(e: EndpointRoute)
    requires Resolved(e)
    ensures AddrsOf(Present(EndpointSlots(e))) == if e.source.Some? then COMMON_ADDRS | RTA_IFP | RTA_IFA else COMMON_ADDRS | RTA_IFP
  {
    hide AddrsOf, IpAddress, LinkAddress;
    var front := [true, true, true];
    AddrsOfThree();
    AddrsOfOne(front, false);
    AddrsOfOne(front + [false], true);
    AddrsOfOne(front + [false] + [true], e.source.Some?);
    var six := front + [false] + [true] + [e.source.Some?];
    AddrsOfAbsent(six, 2);
    assert Present(EndpointSlots(e)) == six + seq(2, _ => false);
  }

  /** Two neighbouring bytes written one after the other. */
  lemma PutTwice(b: Bytes, at: nat, x: bv8, y: bv8)
    requires at + 2 <= |b|
    ensures Put(Put(b, at, [x]), at + 1, [y]) == Put(b, at, [x, y])
  {}

  /** The metric loop of `message`: values that are set are written and collect their bit. */
  method WriteMetrics(header: Bytes, e: EndpointRoute) returns (message: Bytes)
    requires |header| == HEADER && |e.mtu| == 4 && |e.hopcount| == 4
    ensures message == WithMetrics(header, e)
  {
    hide Put;
    var metrics := [(40, e.mtu, 1 as bv8), (44, e.hopcount, 2 as bv8)];
    var inits: bv8 := 0;
    message := header;
    for n := 0 to 2
      invariant |message| == HEADER
      invariant n == 0 ==> message == header && inits == 0
      invariant n == 1 ==> message == (if e.mtu != Zeros(4) then Put(header, 40, e.mtu) else header)
      invariant n == 1 ==> inits == if e.mtu != Zeros(4) then 1 else 0
      invariant n == 2 ==> message == (var h := if e.mtu != Zeros(4) then Put(header, 40, e.mtu) else header;
                                       if e.hopcount != Zeros(4) then Put(h, 44, e.hopcount) else h)
      invariant n == 2 ==> inits == (if e.mtu != Zeros(4) then 1 else 0) | (if e.hopcount != Zeros(4) then 2 else 0)
    {
      if metrics[n].1 != Zeros(4) {
        message := Put(message, metrics[n].0, metrics[n].1);
        inits := inits | metrics[n].2;
      }
    }
    message := Put(message, 32, [inits, 0, 0, 0]);
  }

  /** The presence bits and flags of `message`, as its branches set them. */
  method EndpointBits(e: EndpointRoute) returns (addrs: bv8, flags: bv32)
    requires Resolved(e)
    ensures addrs == AddrsOf(Present(EndpointSlots(e)))
    ensures flags == EndpointFlags(e)
  {
    hide AddrsOf, Present;
    EndpointAddrs(e);
    addrs := RTA_DST;
    flags := RTF_UP | RTF_HOST | RTF_STATIC;
    addrs := addrs | RTA_GATEWAY | RTA_NETMASK | RTA_IFP;
    if e.viaGateway {
      flags := flags | RTF_GATEWAY;
    }
    if e.source.Some? {
      addrs := addrs | RTA_IFA;
    }
  }

  /** The payload of `message`, which grows address by address. */
  method EndpointPayload(e: EndpointRoute) returns (payload: Bytes)
    requires Resolved(e)
    ensures payload == Encode(EndpointSlots(e))
  {
    hide Encode, Padded, LinkAddress, IpAddress;
    EncodeEndpoint(e);
    PaddedAddress(e.destination);
    payload := IpAddress(e.destination);
    payload := Append(payload, e.gateway);
    var mask := SameFamilyIp(e.destination, Ones(|e.destination.bytes|));
    payload := Append(payload, IpAddress(mask));
    payload := Append(payload, LinkAddress(e.interface));
    if e.source.Some? {
      payload := Append(payload, e.source.value);
    }
  }

  /** The header of `message`, filled in field by field. */
  method EndpointHeader(length: nat, e: EndpointRoute, addrs: bv8, flags: bv32) returns (message: Bytes)
    requires length < 0x1_0000 && Resolved(e)
    ensures message == WithMetrics(FreshHeader(length, RTM_ADD, e.interface, flags, addrs), e)
  {
    hide WithMetrics, Put;
    message := Put(Zeros(HEADER), 0, LengthBytes(length));
    PutTwice(message, 2, RTM_VERSION, RTM_ADD);
    message := Put(message, 2, [RTM_VERSION]);
    message := Put(message, 3, [RTM_ADD]);
    message := Put(message, 4, e.interface);
    message := Put(message, 8, WordBytes(flags));
    message := Put(message, 12, [addrs, 0, 0, 0]);
    message := WriteMetrics(message, e);
  }

  /** `EndpointRoute::message(RTM_ADD)` as the source builds it. */
  method BuildEndpointMessage(e: EndpointRoute) returns (result: Result<Bytes>)
    requires Resolved(e)
    ensures result == EndpointMessage(e)
  {
    hide Encode, WithMetrics, FreshHeader, AddrsOf, Present, EndpointFlags, EndpointSlots, Resolved;
    var addrs, flags := EndpointBits(e);
    var payload := EndpointPayload(e);
    var length := HEADER + |payload|;
    if length >= 0x1_0000 {
      return Err;
    }
    var message := EndpointHeader(length, e, addrs, flags);
    result := Ok(message + payload);
  }

  /** `tun_route` as the source builds it: addresses first, then the header fields in front of them. */
  method BuildTunRoute(c: Cidr, index: Bytes) returns (bytes: Snapshot)
    requires ValidCidr(c) && |index| == 2
    ensures bytes == TunRoute(c, index)
  {
    hide Encode, Padded, LinkAddress, IpAddress, AddrsOf, Present, Put, TunFlags;
    ghost var slots := TunSlots(c, index);
    ghost var body := Encode(slots);
    var mask := NetmaskBytes(|c.ip.bytes|, c.prefix);
    bytes := Append(Zeros(HEADER), IpAddress(SameFamilyIp(c.ip, BitAnd(c.ip.bytes, mask))));
    bytes := Append(bytes, LinkAddress(index));
    bytes := Append(bytes, IpAddress(SameFamilyIp(c.ip, mask)));
    EncodeThree(slots[0].value, slots[1].value, slots[2].value);
    TunSize(c, index);
    TunAddrs(c, index);
    assert bytes == Zeros(HEADER) + body;
    bytes := WriteTunHeader(bytes, body, c, index);
  }

  /** The header fields that `tun_route` writes in front of the addresses. */
  method WriteTunHeader(built: Bytes, ghost body: Bytes, c: Cidr, index: Bytes) returns (bytes: Bytes)
    requires ValidCidr(c) && |index| == 2 && built == Zeros(HEADER) + body && HEADER + |body| < 0x1_0000
    ensures bytes == FreshHeader(HEADER + |body|, 0, index, TunFlags(c), COMMON_ADDRS) + body
  {
    hide Put, TunFlags;
    ghost var h := Zeros(HEADER);
    PutInHead(h, body, 0, LengthBytes(|built|));
    h := Put(h, 0, LengthBytes(|built|));
    bytes := Put(built, 0, LengthBytes(|built|));
    PutInHead(h, body, 2, [RTM_VERSION]);
    TypeStaysZero(h, |built|);
    h := Put(h, 2, [RTM_VERSION]);
    bytes := Put(bytes, 2, [RTM_VERSION]);
    PutInHead(h, body, 4, index);
    h := Put(h, 4, index);
    bytes := Put(bytes, 4, index);
    PutInHead(h, body, 12, [RTA_DST | RTA_GATEWAY | RTA_NETMASK, 0, 0, 0]);
    FlagsCommute(h, WordBytes(TunFlags(c)), [COMMON_ADDRS, 0, 0, 0]);
    h := Put(h, 12, [RTA_DST | RTA_GATEWAY | RTA_NETMASK, 0, 0, 0]);
    bytes := Put(bytes, 12, [RTA_DST | RTA_GATEWAY | RTA_NETMASK, 0, 0, 0]);
    var host := c.prefix == (if c.ip.V4? then 32 else 128);
    var flags := RTF_UP | RTF_STATIC | (if host then RTF_HOST else 0);
    TunFlagBits(c);
    PutInHead(h, body, 8, WordBytes(flags));
    bytes := Put(bytes, 8, WordBytes(flags));
  }

  /** A type that is never written is zero. */
  lemma TypeStaysZero(h: Bytes, total: nat)
    requires total < 0x1_0000 && h == Put(Zeros(HEADER), 0, LengthBytes(total))
    ensures Put(h, 2, [RTM_VERSION]) == Put(h, 2, [RTM_VERSION, 0])
  {
    hide LengthBytes;
  }

  /** Flags and presence bits do not overlap. */
  lemma FlagsCommute(h: Bytes, flags: Bytes, addrs: Bytes)
    requires |h| == HEADER && |flags| == 4 && |addrs| == 4
    ensures Put(Put(h, 12, addrs), 8, flags) == Put(Put(h, 8, flags), 12, addrs)
  {}

  lemma TunFlagBits(c: Cidr)
    requires ValidCidr(c)
    ensures TunFlags(c) == RTF_UP | RTF_STATIC | (if c.prefix == (if c.ip.V4? then 32 else 128) then RTF_HOST else 0)
  {}
}
