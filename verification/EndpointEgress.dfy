/** Endpoint traffic keeps its egress on macOS (platform/endpoint_macos.rs `lookup`, platform/routes_macos.rs `install`). */
module EndpointEgress {
  import opened Bytes
  import opened Results
  import opened Cidr
  import opened RoutingMessage
  import opened RouteSnapshot
  import opened RoutePath
  import opened RouteJournal
  import opened SessionRequests

  // -------------------------------------------------------- resolved egress

  /** `EndpointRoute::lookup` on the kernel's reply. */
  function ResolveEndpoint(reply: Snapshot, ip: Ip): (r: Result<EndpointRoute>)
    requires ValidIp(ip)
    ensures r.Ok? ==> Resolved(r.value) && r.value.destination == ip
  {
    if Parse(reply).Err? || |reply| < HEADER || Index(reply) == [0, 0] || Flags(reply) & (RTF_REJECT | RTF_BLACKHOLE) != 0 then Err
    else
      var h := Parse(reply).value;
      var g := h.slots[GATEWAY];
      var gateway := if g.Some? && Family(g.value) in {Some(AF_INET), Some(AF_INET6)} then g.value else LinkAddress(h.index);
      Ok(EndpointRoute(ip, h.index, gateway, h.flags & RTF_GATEWAY != 0, h.slots[IFA], reply[40..44], reply[44..48]))
  }

  /** An installed entry sends traffic where the resolved route did: interface, gateway, directness and source. */
  predicate HasEgress(entry: Snapshot, e: EndpointRoute)
  {
    Parse(entry).Ok? &&
    var h := Parse(entry).value;
    && h.index == e.interface
    && h.slots[GATEWAY] == Some(e.gateway)
    && h.slots[IFA] == e.source
    && (h.flags & RTF_GATEWAY != 0) == e.viaGateway
  }

  /** The resolved egress is that of the reply: interface, directness and source always, and an IP gateway as it is. Any
      other gateway is replaced by a link address on the same interface. */
  lemma ReplyHasResolvedEgress(reply: Snapshot, ip: Ip)
    requires ValidIp(ip) && ResolveEndpoint(reply, ip).Ok?
    ensures var e, g := ResolveEndpoint(reply, ip).value, Parse(reply).value.slots[GATEWAY];
            if g.Some? && Family(g.value) in {Some(AF_INET), Some(AF_INET6)} then HasEgress(reply, e)
            else e.gateway == LinkAddress(e.interface) && Index(reply) == e.interface && Parse(reply).value.slots[IFA] == e.source
                 && (Flags(reply) & RTF_GATEWAY != 0) == e.viaGateway
    ensures ResolveEndpoint(reply, ip).value.interface != [0, 0]
    ensures Flags(reply) & RTF_REJECT == 0 && Flags(reply) & RTF_BLACKHOLE == 0
  {
    UsableFlags(Flags(reply));
    hide Addresses;
  }

  lemma UsableFlags(f: bv32)
    ensures f & (RTF_REJECT | RTF_BLACKHOLE) == 0 <==> f & RTF_REJECT == 0 && f & RTF_BLACKHOLE == 0
  {}

  // ------------------------------------------------------------------- metrics

  /** The two metrics in a message. */
  function Metrics(m: Snapshot): (Bytes, Bytes)
    requires |m| >= HEADER
  {
    (m[40..44], m[44..48])
  }

  lemma MetricBytes(h: Bytes, e: EndpointRoute)
    requires |h| == HEADER && |e.mtu| == 4 && |e.hopcount| == 4 && h[40..44] == Zeros(4) && h[44..48] == Zeros(4)
    ensures var r := WithMetrics(h, e);
            && r[40..44] == e.mtu && r[44..48] == e.hopcount
            && r[32..36] == [(if e.mtu != Zeros(4) then 1 else 0) | (if e.hopcount != Zeros(4) then 2 else 0), 0, 0, 0]
  {
    hide Put;
    var h1 := if e.mtu != Zeros(4) then Put(h, 40, e.mtu) else h;
    assert h1[40..44] == e.mtu && h1[44..48] == Zeros(4);
    var h2 := if e.hopcount != Zeros(4) then Put(h1, 44, e.hopcount) else h1;
    assert h2[40..44] == e.mtu && h2[44..48] == e.hopcount;
  }

  lemma FreshMetrics(total: nat, kind: bv8, index: Bytes, flags: bv32, addrs: bv8)
    requires total < 0x1_0000 && |index| == 2
    ensures var h := FreshHeader(total, kind, index, flags, addrs); h[40..44] == Zeros(4) && h[44..48] == Zeros(4)
  {
    hide Put, LengthBytes, WordBytes;
  }

  lemma RequestMetrics(e: EndpointRoute)
    requires Resolved(e) && EndpointMessage(e).Ok?
    ensures var m := EndpointMessage(e).value;
            && |m| >= HEADER && Metrics(m) == (e.mtu, e.hopcount)
            && m[32..36] == [(if e.mtu != Zeros(4) then 1 else 0) | (if e.hopcount != Zeros(4) then 2 else 0), 0, 0, 0]
  {
    hide FreshHeader, WithMetrics, Encode, AddrsOf, Present, EndpointFlags, EndpointSlots;
    var slots := EndpointSlots(e);
    var total, addrs := HEADER + |Encode(slots)|, AddrsOf(Present(slots));
    var h := FreshHeader(total, RTM_ADD, e.interface, EndpointFlags(e), addrs);
    FreshMetrics(total, RTM_ADD, e.interface, EndpointFlags(e), addrs);
    MetricBytes(h, e);
    var r := WithMetrics(h, e);
    var m := EndpointMessage(e).value;
    assert m == r + Encode(slots);
    assert m[40..44] == r[40..44] && m[44..48] == r[44..48] && m[32..36] == r[32..36];
  }

  lemma ResolvedMetrics(reply: Snapshot, ip: Ip)
    requires ValidIp(ip) && ResolveEndpoint(reply, ip).Ok?
    ensures |reply| >= HEADER && (ResolveEndpoint(reply, ip).value.mtu, ResolveEndpoint(reply, ip).value.hopcount) == Metrics(reply)
  {
    hide Parse, Index, Flags, LinkAddress;
  }

  /** The resolved MTU and hop count are those of the reply, and the request for the endpoint's route carries them, with the
      bit of each exactly when it is set. What the journal sends to the kernel still has them. */
  lemma MetricsAreCarried(reply: Snapshot, ip: Ip)
    requires ValidIp(ip) && ResolveEndpoint(reply, ip).Ok? && EndpointMessage(ResolveEndpoint(reply, ip).value).Ok?
    ensures var m := EndpointMessage(ResolveEndpoint(reply, ip).value).value;
            && |m| >= HEADER && |reply| >= HEADER && Metrics(m) == Metrics(reply)
            && m[33..36] == Zeros(3) && (m[32] & 1 != 0 <==> Metrics(reply).0 != Zeros(4)) && (m[32] & 2 != 0 <==> Metrics(reply).1 != Zeros(4))
            && m[32] & 0xfc == 0
            && (Message(m, RTM_ADD).Ok? ==> |Message(m, RTM_ADD).value| >= HEADER && Metrics(Message(m, RTM_ADD).value) == Metrics(reply))
  {
    hide EndpointMessage, ResolveEndpoint, Message, Metrics, Parse, Addresses, Index, Flags, Length, Encode;
    ResolvedMetrics(reply, ip);
    var e := ResolveEndpoint(reply, ip).value;
    RequestMetrics(e);
    var m := EndpointMessage(e).value;
    assert m[32] == m[32..36][0] && m[33..36] == m[32..36][1..];
    MetricBits(e.mtu != Zeros(4), e.hopcount != Zeros(4));
    if Message(m, RTM_ADD).Ok? {
      MessageFields(m, RTM_ADD);
      KeptMetrics(Message(m, RTM_ADD).value, m);
    }
  }

  lemma MetricBits(mtu: bool, hopcount: bool)
    ensures var b: bv8 := (if mtu then 1 else 0) | (if hopcount then 2 else 0);
            (b & 1 != 0 <==> mtu) && (b & 2 != 0 <==> hopcount) && b & 0xfc == 0
  {}

  lemma KeptMetrics(a: Snapshot, b: Snapshot)
    requires |a| >= HEADER && |b| >= HEADER && a[36..HEADER] == b[36..HEADER]
    ensures Metrics(a) == Metrics(b)
  {
    assert a[40..44] == a[36..HEADER][4..8] && b[40..44] == b[36..HEADER][4..8];
    assert a[44..48] == a[36..HEADER][8..12] && b[44..48] == b[36..HEADER][8..12];
  }

  lemma GatewayFlagKept(f: bv32)
    ensures (f & !STATUS_FLAGS) & RTF_GATEWAY == f & RTF_GATEWAY
  {}

  lemma EndpointRequestHasEgress(e: EndpointRoute)
    requires Resolved(e) && EndpointMessage(e).Ok? && Message(EndpointMessage(e).value, RTM_ADD).Ok?
    ensures HasEgress(Message(EndpointMessage(e).value, RTM_ADD).value, e)
  {
    hide Parse, Message, EndpointMessage, EndpointFlags;
    EndpointParses(e);
    RequestRoundTrip(EndpointMessage(e).value, RTM_ADD);
    EndpointFlagBits(e);
    GatewayFlagKept(EndpointFlags(e));
  }

  /** A resolved endpoint's route can always be sent, and says that it is a static host route through its interface. */
  lemma ResolvedCanBeSent(e: EndpointRoute)
    requires Resolved(e) && e.interface != [0, 0] && EndpointMessage(e).Ok?
    ensures Message(EndpointMessage(e).value, RTM_ADD).Ok?
    ensures var h := Parse(EndpointMessage(e).value).value;
            && h.flags & RTF_UP != 0 && h.flags & RTF_HOST != 0 && h.flags & RTF_STATIC != 0
            && h.slots[IFP] == Some(LinkAddress(e.interface))
            && h.slots[NETMASK].Some? && RawAddress(h.slots[NETMASK].value, FamilyByte(e.destination)) == Ones(|e.destination.bytes|)
  {
    hide Parse, EndpointMessage, IpAddress, LinkAddress, RawAddress, Assemble;
    EndpointParses(e);
    SentFlags(e);
    IpAddressBytes(SameFamilyIp(e.destination, Ones(|e.destination.bytes|)));
    SameSizeAgain(e);
  }

  lemma SentFlags(e: EndpointRoute)
    ensures var f := EndpointFlags(e); f & RTF_UP != 0 && f & RTF_HOST != 0 && f & RTF_STATIC != 0 && f & RTF_PROXY == 0
  {}

  /** The request already names its interface, so re-encoding does not change its size. */
  lemma SameSizeAgain(e: EndpointRoute)
    requires Resolved(e) && e.interface != [0, 0] && EndpointMessage(e).Ok?
    ensures Message(EndpointMessage(e).value, RTM_ADD).Ok?
  {
    hide IpAddress, LinkAddress, RequestHeader, Encode, WithMetrics, FreshHeader, AddrsOf, Present, EndpointFlags, Addresses;
    var m := EndpointMessage(e).value;
    EndpointParses(e);
    SentFlags(e);
    assert RequestSlots(m) == EndpointSlots(e);
  }

  // --------------------------------------------------------- route selection

  /** An unscoped entry that covers the address. */
  predicate KeyMatches(k: RouteKey, ip: Ip)
    requires ValidIp(ip)
  {
    && k.family == FamilyByte(ip) && k.scope == [0, 0]
    && |k.mask| == |ip.bytes| && BitAnd(WithoutZone(ip.bytes), k.mask) == k.destination
  }

  /** `a` covers no more than `b`, and is a host route if `b` is one. */
  predicate MoreSpecific(a: RouteKey, b: RouteKey)
  {
    |a.mask| == |b.mask| && (forall i :: 0 <= i < |a.mask| ==> a.mask[i] & b.mask[i] == b.mask[i]) && (b.host ==> a.host)
  }

  /** The longest-prefix choice of an unscoped lookup. */
  ghost predicate Selects(t: Table, ip: Ip, k: RouteKey)
    requires ValidIp(ip)
  {
    k in t && KeyMatches(k, ip) && forall o :: o in t && KeyMatches(o, ip) ==> MoreSpecific(k, o)
  }

  lemma OnesCoverAll(mask: Bytes, o: RouteKey)
    requires mask == Ones(|o.mask|)
    ensures forall i :: 0 <= i < |mask| ==> mask[i] & o.mask[i] == o.mask[i]
  {
    forall i | 0 <= i < |mask|
      ensures mask[i] & o.mask[i] == o.mask[i]
    {
      OnesAnd(o.mask[i]);
    }
  }

  lemma OnlyOnesCoverHosts(mask: Bytes)
    requires forall i :: 0 <= i < |mask| ==> mask[i] & Ones(|mask|)[i] == Ones(|mask|)[i]
    ensures mask == Ones(|mask|)
  {
    forall i | 0 <= i < |mask|
      ensures mask[i] == 0xff
    {
      assert mask[i] & Ones(|mask|)[i] == Ones(|mask|)[i];
      OnlyOnesCoverOnes(mask[i]);
    }
  }

  lemma HostKeyMatches(ip: Ip)
    requires ValidIp(ip)
    ensures KeyMatches(HostKey(ip), ip)
  {
    hide WithoutZone, BitAnd;
    BitAndOnes(WithoutZone(ip.bytes));
  }

  /** A matching key as specific as the host key is the host key. */
  lemma HostKeyIsAlone(ip: Ip, k: RouteKey)
    requires ValidIp(ip) && KeyMatches(k, ip) && MoreSpecific(k, HostKey(ip))
    ensures k == HostKey(ip)
  {
    hide WithoutZone, BitAnd;
    OnlyOnesCoverHosts(k.mask);
    BitAndOnes(WithoutZone(ip.bytes));
  }

  /** A host route to the address wins every lookup of it, and wins alone. */
  lemma HostRouteWins(t: Table, ip: Ip, k: RouteKey)
    requires ValidIp(ip) && HostKey(ip) in t
    ensures Selects(t, ip, k) <==> k == HostKey(ip)
  {
    var host := HostKey(ip);
    HostKeyMatches(ip);
    forall o | o in t && KeyMatches(o, ip)
      ensures MoreSpecific(host, o)
    {
      OnesCoverAll(host.mask, o);
    }
    hide KeyMatches, MoreSpecific, HostKey;
    if Selects(t, ip, k) {
      HostKeyIsAlone(ip, k);
    }
  }

  lemma OnesAnd(b: bv8)
    ensures 0xff & b == b
  {}

  lemma OnlyOnesCoverOnes(b: bv8)
    requires b & 0xff == 0xff
    ensures b == 0xff
  {}

  // -------------------------------------------------------- first writer wins

  /** `routes[f]` is the first request for key `k`. */
  ghost predicate FirstFor(routes: seq<Snapshot>, f: nat, k: RouteKey)
  {
    f < |routes| && Key(routes[f]) == Ok(k) && forall g :: 0 <= g < f ==> Key(routes[g]) != Ok(k)
  }

  ghost predicate Requests(routes: seq<Snapshot>, k: RouteKey)
  {
    exists i :: 0 <= i < |routes| && Key(routes[i]) == Ok(k)
  }

  /** The table holds, for every requested key, the entry of the first request for it. */
  ghost predicate HoldsFirst(t: Table, routes: seq<Snapshot>)
  {
    forall f: nat, k :: FirstFor(routes, f, k) ==> Message(routes[f], RTM_ADD).Ok? && Lookup(t, k) == Some(Message(routes[f], RTM_ADD).value)
  }

  /** One successful add: the key of an earlier request is left alone, a new one is written. */
  lemma AddEffect(t: Table, j: Journal, route: Snapshot, t': Table, j': Journal)
    requires ValidTable(t) && Added(t, j, route, t', j', true)
    ensures Key(route).Ok?
    ensures forall k :: Journaled(j', k) <==> Journaled(j, k) || Key(route) == Ok(k)
    ensures forall k :: Key(route) != Ok(k) ==> Lookup(t', k) == Lookup(t, k)
    ensures Journaled(j, Key(route).value) ==> t' == t
    ensures !Journaled(j, Key(route).value)
            ==> Message(route, RTM_ADD).Ok? && Lookup(t', Key(route).value) == Some(Message(route, RTM_ADD).value)
  {
    hide Key, Message;
    var key := Key(route).value;
    if !Journaled(j, key) {
      var c := j'[|j|];
      assert j' == j + [c] && c.key == key;
      assert j'[|j|].key == key;
      assert forall i :: 0 <= i < |j| ==> j'[i].key == j[i].key;
      if key in t {
        var t1, reply :| Requested(t, t[key], RTM_DELETE, t1, reply) && reply == Done && AddRequested(t1, route, t', true);
        RequestFrame(t, t[key], RTM_DELETE, t1, reply);
        var second :| Requested(t1, route, RTM_ADD, t', second) && true == second.Done?;
        RequestFrame(t1, route, RTM_ADD, t', second);
      } else {
        var reply :| Requested(t, route, RTM_ADD, t', reply) && true == reply.Done?;
        RequestFrame(t, route, RTM_ADD, t', reply);
      }
    }
  }

  lemma {:induction false} FirstWriterWins(t: Table, routes: seq<Snapshot>, t': Table, j': Journal, oks: seq<bool>)
    requires ValidTable(t) && AddRun(t, [], routes, t', j', oks) && AllTrue(oks)
    ensures ValidTable(t') && HoldsFirst(t', routes)
    ensures forall k :: Journaled(j', k) <==> Requests(routes, k)
    decreases |routes|
  {
    hide Key, Message, Added, Journaled, ValidTable;
    EmptyJournalExplains(t);
    RunKeepsExplaining(t, t, [], routes, t', j', oks);
    if routes == [] {
      NothingJournaled();
    } else {
      var n := |routes| - 1;
      var init, last := routes[..n], routes[n];
      var t1, j1 :| AddRun(t, [], init, t1, j1, oks[..n]) && Added(t1, j1, last, t', j', oks[n]);
      FirstWriterWins(t, init, t1, j1, oks[..n]);
      AddEffect(t1, j1, last, t', j');
      forall k
        ensures Requests(routes, k) <==> Requests(init, k) || Key(last) == Ok(k)
      {
        RequestsSnoc(init, last, k);
        assert routes == init + [last];
      }
      forall f: nat, k | FirstFor(routes, f, k)
        ensures Message(routes[f], RTM_ADD).Ok? && Lookup(t', k) == Some(Message(routes[f], RTM_ADD).value)
      {
        if f < n {
          assert FirstFor(init, f, k);
          assert init[f] == routes[f];
          assert Requests(init, k);
        } else {
          assert !Requests(init, k) by {
            assert forall g :: 0 <= g < n ==> init[g] == routes[g];
          }
        }
      }
    }
  }

  lemma NothingJournaled()
    ensures forall k :: !Journaled([], k)
  {}

  lemma RequestsSnoc(init: seq<Snapshot>, last: Snapshot, k: RouteKey)
    ensures Requests(init + [last], k) <==> Requests(init, k) || Key(last) == Ok(k)
  {
    hide Key;
    var all := init + [last];
    assert all[|init|] == last;
    assert forall i :: 0 <= i < |init| ==> all[i] == init[i];
  }

  // ------------------------------------------------------------------ result

  /** The endpoint messages that `install` puts before the VPN routes. */
  predicate EndpointsFirst(endpoints: seq<EndpointRoute>, routes: seq<Snapshot>)
  {
    && |endpoints| <= |routes|
    && forall i :: 0 <= i < |endpoints| ==> Resolved(endpoints[i]) && EndpointMessage(endpoints[i]) == Ok(routes[i])
  }

  /** After a successful install, whatever VPN routes follow the endpoint routes, a lookup of an endpoint's address
      selects the host route with the egress resolved for the first endpoint of that address. */
  lemma EndpointsKeepTheirEgress(t: Table, endpoints: seq<EndpointRoute>, routes: seq<Snapshot>, t': Table, j': Journal, oks: seq<bool>, i: nat)
    requires ValidTable(t) && AddRun(t, [], routes, t', j', oks) && AllTrue(oks)
    requires EndpointsFirst(endpoints, routes) && i < |endpoints|
    requires forall f :: 0 <= f < i ==> HostKey(endpoints[f].destination) != HostKey(endpoints[i].destination)
    ensures var ip := endpoints[i].destination;
            && HostKey(ip) in t'
            && HasEgress(t'[HostKey(ip)], endpoints[i])
            && forall k :: Selects(t', ip, k) <==> k == HostKey(ip)
  {
    hide Key, Message, EndpointMessage, HasEgress, AddRun, Selects, HostKey;
    var ip, k := endpoints[i].destination, HostKey(endpoints[i].destination);
    FirstWriterWins(t, routes, t', j', oks);
    forall f | 0 <= f <= i
      ensures Key(routes[f]) == Ok(HostKey(endpoints[f].destination))
    {
      EndpointKey(endpoints[f]);
    }
    assert FirstFor(routes, i, k);
    EndpointRequestHasEgress(endpoints[i]);
    forall o
      ensures Selects(t', ip, o) <==> o == HostKey(ip)
    {
      HostRouteWins(t', ip, o);
    }
  }
}
