/** Session setup on macOS from configuration to routing table (platform/macos.rs, platform/mod.rs, platform/routes_macos.rs). */
module MacSetup {
  import opened Bytes
  import opened Results
  import opened Cidr
  import opened RoutingMessage
  import opened RouteSnapshot
  import opened RoutePath
  import opened RouteJournal
  import opened SessionRequests
  import opened EndpointEgress
  import opened RouteIdentity
  import opened RouteCoverage
  import opened MacSession
  import RouteSetup

  predicate AllResolved(endpoints: seq<EndpointRoute>)
  {
    forall i :: 0 <= i < |endpoints| ==> Resolved(endpoints[i])
  }

  function Destinations(endpoints: seq<EndpointRoute>): seq<Ip>
  {
    seq(|endpoints|, i requires 0 <= i < |endpoints| => endpoints[i].destination)
  }

  /** The chained requests of `install`: endpoint routes, then TUN routes; without an interface index the latter fail. */
  function InstallRequests(endpoints: seq<EndpointRoute>, vpn: seq<Cidr>, index: Option<Bytes>): (r: seq<Result<Snapshot>>)
    requires AllResolved(endpoints) && ValidCidrs(vpn) && (index.Some? ==> |index.value| == 2)
    ensures |r| == |endpoints| + |vpn|
  {
    seq(|endpoints|, i requires 0 <= i < |endpoints| => EndpointMessage(endpoints[i]))
    + seq(|vpn|, i requires 0 <= i < |vpn| => if index.Some? then Ok(TunRoute(vpn[i], index.value)) else Err)
  }

  /** Endpoint `i` is the first with its host key. */
  ghost predicate FirstEndpoint(endpoints: seq<EndpointRoute>, i: nat)
    requires AllResolved(endpoints)
  {
    i < |endpoints| && forall f :: 0 <= f < i ==> HostKey(endpoints[f].destination) != HostKey(endpoints[i].destination)
  }

  /** A lookup of the endpoint's address has one answer, the host route with the egress resolved for it. */
  ghost predicate KeepsEgress(t: Table, e: EndpointRoute)
    requires Resolved(e)
  {
    && HostKey(e.destination) in t
    && HasEgress(t[HostKey(e.destination)], e)
    && forall k :: Selects(t, e.destination, k) <==> k == HostKey(e.destination)
  }

  predicate IsTunRequest(route: Snapshot, c: Cidr, index: Option<Bytes>)
  {
    ValidCidr(c) && index.Some? && |index.value| == 2 && route == TunRoute(c, index.value)
  }

  lemma RequestsInOrder(endpoints: seq<EndpointRoute>, vpn: seq<Cidr>, index: Option<Bytes>, tried: seq<Snapshot>)
    requires AllResolved(endpoints) && ValidCidrs(vpn) && (index.Some? ==> |index.value| == 2)
    requires var requests := InstallRequests(endpoints, vpn, index);
             |tried| == |requests| && forall i :: 0 <= i < |tried| ==> requests[i] == Ok(tried[i])
    ensures EndpointsFirst(endpoints, tried)
    ensures forall i :: 0 <= i < |vpn| ==> IsTunRequest(tried[|endpoints|..][i], vpn[i], index)
  {
    hide EndpointMessage, TunRoute, Resolved, ValidCidr;
    var requests := InstallRequests(endpoints, vpn, index);
    forall i | 0 <= i < |endpoints|
      ensures EndpointMessage(endpoints[i]) == Ok(tried[i])
    {
      assert requests[i] == Ok(tried[i]);
    }
    forall i | 0 <= i < |vpn|
      ensures IsTunRequest(tried[|endpoints|..][i], vpn[i], index)
    {
      assert requests[|endpoints| + i] == Ok(tried[|endpoints| + i]);
    }
  }

  /** After a complete install every endpoint keeps its egress and every VPN route leads into the tunnel. */
  lemma CompleteInstall(t: Table, endpoints: seq<EndpointRoute>, vpn: seq<Cidr>, index: Option<Bytes>,
                        tried: seq<Snapshot>, t': Table, j': Journal, reports: seq<bool>)
    requires ValidTable(t) && AllResolved(endpoints) && ValidCidrs(vpn) && (index.Some? ==> |index.value| == 2)
    requires AddRun(t, [], tried, t', j', reports) && AllTrue(reports)
    requires var requests := InstallRequests(endpoints, vpn, index);
             |tried| == |requests| && forall i :: 0 <= i < |tried| ==> requests[i] == Ok(tried[i])
    ensures forall i: nat :: FirstEndpoint(endpoints, i) ==> KeepsEgress(t', endpoints[i])
    ensures forall c :: c in vpn ==> InTunnel(t', c, index, endpoints)
  {
    hide EndpointMessage, TunRoute, ValidTable, AddRun, AllTrue, HasEgress, Selects, EndpointsFirst, HoldsFirst, HostKey, Key, Message,
      OnInterface, IsEndpointKey, TunKey;
    RequestsInOrder(endpoints, vpn, index, tried);
    forall i: nat | FirstEndpoint(endpoints, i)
      ensures KeepsEgress(t', endpoints[i])
    {
      EndpointsKeepTheirEgress(t, endpoints, tried, t', j', reports, i);
    }
    FirstWriterWins(t, tried, t', j', reports);
    forall c | c in vpn
      ensures InTunnel(t', c, index, endpoints)
    {
      var i :| 0 <= i < |vpn| && vpn[i] == c;
      assert IsTunRequest(tried[|endpoints|..][i], c, index);
      TunRouteKey(c, index.value);
      TunEntry(t', endpoints, vpn, index, tried, |endpoints| + i);
    }
  }

  /** The entry sends its traffic into the interface with the given index. */
  predicate OnInterface(entry: Snapshot, index: Bytes)
    requires |index| == 2
  {
    Parse(entry).Ok? && Parse(entry).value.index == index && Parse(entry).value.slots[GATEWAY] == Some(LinkAddress(index))
  }

  /** The table has an entry for the network of `c`, and unless that is also an endpoint's it leads into the tunnel. */
  ghost predicate InTunnel(t: Table, c: Cidr, index: Option<Bytes>, endpoints: seq<EndpointRoute>)
    requires AllResolved(endpoints)
  {
    && ValidCidr(c) && index.Some? && |index.value| == 2
    && TunKey(c) in t && (IsEndpointKey(endpoints, TunKey(c)) || OnInterface(t[TunKey(c)], index.value))
  }

  lemma OnTunnel(t: Table, c: Cidr, index: Option<Bytes>, endpoints: seq<EndpointRoute>)
    requires AllResolved(endpoints) && InTunnel(t, c, index, endpoints) && !IsEndpointKey(endpoints, TunKey(c))
    ensures index.Some? && |index.value| == 2 && TunKey(c) in t && OnInterface(t[TunKey(c)], index.value)
  {}

  ghost predicate IsEndpointKey(endpoints: seq<EndpointRoute>, k: RouteKey)
    requires AllResolved(endpoints)
  {
    exists i :: 0 <= i < |endpoints| && HostKey(endpoints[i].destination) == k
  }

  /** What a TUN request installs leads into the tunnel. */
  lemma TunRequestLeadsIn(c: Cidr, index: Bytes)
    requires ValidCidr(c) && |index| == 2 && Message(TunRoute(c, index), RTM_ADD).Ok?
    ensures OnInterface(Message(TunRoute(c, index), RTM_ADD).value, index)
  {
    hide Message, TunRoute, Parse, TunFlags, Masked, IpAddress, LinkAddress;
    TunParses(c, index);
    RequestRoundTrip(TunRoute(c, index), RTM_ADD);
  }

  /** The entry at the key of TUN request `n`, when that is no endpoint's key. */
  lemma TunEntry(t: Table, endpoints: seq<EndpointRoute>, vpn: seq<Cidr>, index: Option<Bytes>, tried: seq<Snapshot>, n: nat)
    requires HoldsFirst(t, tried) && AllResolved(endpoints) && EndpointsFirst(endpoints, tried) && |tried| == |endpoints| + |vpn|
    requires forall i :: 0 <= i < |vpn| ==> IsTunRequest(tried[|endpoints|..][i], vpn[i], index)
    requires |endpoints| <= n < |tried| && Key(tried[n]).Ok?
    ensures Key(tried[n]).value in t
    ensures IsEndpointKey(endpoints, Key(tried[n]).value) || (index.Some? && |index.value| == 2 && OnInterface(t[Key(tried[n]).value], index.value))
  {
    hide Key, Message, EndpointMessage, TunRoute, OnInterface, HostKey;
    var k := Key(tried[n]).value;
    var f := FirstRequest(tried, n);
    if f < |endpoints| {
      EndpointKey(endpoints[f]);
      assert HostKey(endpoints[f].destination) == k;
    } else {
      assert IsTunRequest(tried[|endpoints|..][f - |endpoints|], vpn[f - |endpoints|], index);
      TunRequestLeadsIn(vpn[f - |endpoints|], index.value);
    }
  }

  /** A request whose key can be read has a first request for the same key. */
  lemma {:induction false} FirstRequest(routes: seq<Snapshot>, n: nat) returns (f: nat)
    requires n < |routes| && Key(routes[n]).Ok?
    ensures FirstFor(routes, f, Key(routes[n]).value)
    decreases n
  {
    hide Key;
    if m :| 0 <= m < n && Key(routes[m]) == Key(routes[n]) {
      f := FirstRequest(routes, m);
    } else {
      f := n;
    }
  }

  lemma FullMask(b: Bytes)
    ensures Masked(b, 8 * |b|) == b
  {}

  /** A kept route has an endpoint's key only through the zone of a link-local address. */
  lemma KeptIsNoEndpoint(allowed: seq<Cidr>, endpoints: seq<EndpointRoute>, c: Cidr)
    requires AllResolved(endpoints) && ValidCidrs(allowed) && ValidCidr(c) && !ZonesMatter(c)
    requires c in RouteSetup.FilterRoutes(allowed, Destinations(endpoints))
    ensures !IsEndpointKey(endpoints, TunKey(c))
  {
    hide RouteSetup.FilterRoutes, Masked, WithoutZone, NetmaskBytes, LinkLocal;
    RouteSetup.FilterDropsOnlyEndpointHosts(allowed, Destinations(endpoints), c);
    forall i | 0 <= i < |endpoints|
      ensures HostKey(endpoints[i].destination) != TunKey(c)
    {
      var ip := endpoints[i].destination;
      assert Destinations(endpoints)[i] == ip;
      if HostKey(ip) == TunKey(c) {
        FullMask(c.ip.bytes);
        ZoneFreeIff(c.ip.bytes, ip.bytes);
        SameHostNoZone(c.ip.bytes, ip.bytes);
      }
    }
  }

  lemma SameHostNoZone(a: Bytes, b: Bytes)
    requires SameHost(a, b) && !LinkLocal(a)
    ensures a == b
  {
    hide LinkLocal;
  }

  // ----------------------------------------------------- cleaning up on failure

  /** Every journaled route was requested. */
  lemma {:induction false} JournalIsTried(t: Table, routes: seq<Snapshot>, t': Table, j': Journal, oks: seq<bool>)
    requires AddRun(t, [], routes, t', j', oks)
    ensures forall m :: 0 <= m < |j'| ==> j'[m].route in routes
    decreases |routes|
  {
    hide Added;
    if routes != [] {
      var n := |routes| - 1;
      var t1, j1 :| AddRun(t, [], routes[..n], t1, j1, oks[..n]) && Added(t1, j1, routes[n], t', j', oks[n]);
      JournalIsTried(t, routes[..n], t1, j1, oks[..n]);
      AddJournalsItsRoute(t1, j1, routes[n], t', j', oks[n]);
      assert routes == routes[..n] + [routes[n]];
    }
  }

  lemma AddJournalsItsRoute(t: Table, j: Journal, route: Snapshot, t': Table, j': Journal, ok: bool)
    requires Added(t, j, route, t', j', ok)
    ensures j' == j || (|j'| == |j| + 1 && j'[..|j|] == j && j'[|j|].route == route)
  {
    hide Key, Message, Requested;
  }

  ghost predicate SourcesComparable(endpoints: seq<EndpointRoute>)
  {
    forall i :: 0 <= i < |endpoints| ==> ComparableSource(endpoints[i].source)
  }

  /** All routes of the session can be recognised again when the endpoints' sources are IP addresses. */
  lemma TriedAreComparable(endpoints: seq<EndpointRoute>, vpn: seq<Cidr>, index: Option<Bytes>, tried: seq<Snapshot>, n: nat)
    requires AllResolved(endpoints) && ValidCidrs(vpn) && (index.Some? ==> |index.value| == 2) && SourcesComparable(endpoints)
    requires var requests := InstallRequests(endpoints, vpn, index);
             |tried| <= |requests| && forall i :: 0 <= i < |tried| ==> requests[i] == Ok(tried[i])
    requires n < |tried|
    ensures ComparablePath(tried[n])
  {
    hide EndpointMessage, TunRoute, Resolved, ValidCidr, ComparablePath, ComparableSource;
    assert InstallRequests(endpoints, vpn, index)[n] == Ok(tried[n]);
    if n < |endpoints| {
      EndpointIsComparable(endpoints[n]);
    } else {
      TunIsComparable(vpn[n - |endpoints|], index.value);
    }
  }

  lemma JournalIsRemovable(endpoints: seq<EndpointRoute>, vpn: seq<Cidr>, index: Option<Bytes>,
                           t: Table, tried: seq<Snapshot>, now: Table, j: Journal, reports: seq<bool>)
    requires AllResolved(endpoints) && ValidCidrs(vpn) && (index.Some? ==> |index.value| == 2) && SourcesComparable(endpoints)
    requires var requests := InstallRequests(endpoints, vpn, index);
             |tried| <= |requests| && forall i :: 0 <= i < |tried| ==> requests[i] == Ok(tried[i])
    requires AddRun(t, [], tried, now, j, reports)
    ensures AllRemovable(j, now)
  {
    hide AddRun, ComparablePath, InstallRequests, SourcesComparable, AllResolved, ValidCidrs;
    JournalIsTried(t, tried, now, j, reports);
    forall m | 0 <= m < |j|
      ensures Removable(j[m], now)
    {
      var n :| 0 <= n < |tried| && tried[n] == j[m].route;
      TriedAreComparable(endpoints, vpn, index, tried, n);
    }
  }

  /** `configure_session` on a configuration. When it succeeds, whatever the allowed IPs, a lookup of an endpoint's address
      gives the egress resolved before the TUN existed, and every route that was not filtered out leads into the tunnel.
      When it fails without faults, the cleanup succeeds if the sources resolved for the endpoints are IP addresses, and in
      general exactly when the session's routes can be recognised. */
  method ConfigureFrom(session: SessionRoutes, table: KernelRoutes, dns: DnsStore, interface: string,
                       endpoints: seq<EndpointRoute>, allowed: seq<Cidr>, index: Option<Bytes>, resolver: Resolver)
    returns (ok: bool, cleaned: bool, ghost middle: Table, ghost journal: Journal, ghost tried: seq<Snapshot>, ghost reports: seq<bool>)
    requires session.changes == [] && ValidTable(table.routes)
    requires AllResolved(endpoints) && ValidCidrs(allowed) && (index.Some? ==> |index.value| == 2)
    modifies session, table, dns
    ensures ok ==> forall i: nat :: FirstEndpoint(endpoints, i) ==> KeepsEgress(table.routes, endpoints[i])
    ensures ok ==> forall c :: c in RouteSetup.FilterRoutes(allowed, Destinations(endpoints)) ==> InTunnel(table.routes, c, index, endpoints)
    ensures ok ==> forall c :: c in RouteSetup.FilterRoutes(allowed, Destinations(endpoints)) && ValidCidr(c) && !ZonesMatter(c) ==>
                                 index.Some? && TunKey(c) in table.routes && OnInterface(table.routes[TunKey(c)], index.value)
    ensures ok ==> session.changes == journal && Explains(old(table.routes), table.routes, journal)
    ensures !ok && cleaned ==> interface !in dns.entries && forall k :: AsBefore(old(table.routes), middle, journal, table.routes, k)
    ensures !ok && table.faults == old(table.faults) && dns.faults == old(dns.faults)
            ==> && Blocked(old(table.routes), [], InstallRequests(endpoints, RouteSetup.FilterRoutes(allowed, Destinations(endpoints)), index), tried, reports)
                && (cleaned <==> AllRemovable(journal, middle)) && (SourcesComparable(endpoints) ==> cleaned)
  {
    hide Explains, ValidTable, AsBefore, AddRun, AllTrue, KeepsEgress, InTunnel, FirstEndpoint, Blocked, AllRemovable, SourcesComparable,
      RouteSetup.FilterRoutes, TunKey, OnInterface, ZonesMatter, IsEndpointKey;
    var vpn := RouteSetup.FilterRoutes(allowed, Destinations(endpoints));
    var requests := InstallRequests(endpoints, vpn, index);
    ok, cleaned, middle, journal, tried, reports := ConfigureSession(session, table, dns, interface, requests, resolver);
    if ok {
      CompleteInstall(old(table.routes), endpoints, vpn, index, tried, table.routes, journal, reports);
      forall c | c in vpn && ValidCidr(c) && !ZonesMatter(c)
        ensures index.Some? && TunKey(c) in table.routes && OnInterface(table.routes[TunKey(c)], index.value)
      {
        KeptIsNoEndpoint(allowed, endpoints, c);
        OnTunnel(table.routes, c, index, endpoints);
      }
    } else if SourcesComparable(endpoints) {
      JournalIsRemovable(endpoints, vpn, index, old(table.routes), tried, middle, journal, reports);
    }
  }
}
