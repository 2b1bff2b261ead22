/** Route filtering, and installation and cleanup on Linux and Windows (platform/mod.rs). */
module RouteSetup {
  import opened Bytes
  import opened Sequences
  import opened Cidr

  /** The table key of a block: family, prefix length, network bits. */
  datatype Network = Network(v6: bool, prefix: nat, bits: Bytes)

  /** Where an entry sends its traffic. */
  datatype Egress = Tunnel | Physical(id: int)

  type Table = map<Network, Egress>

  function NetworkOf(c: Cidr): Network
    requires ValidCidr(c)
  {
    Network(c.ip.V6?, c.prefix, Masked(c.ip.bytes, c.prefix))
  }

  function HostNetwork(ip: Ip): Network
    requires ValidIp(ip)
  {
    NetworkOf(Cidr(ip, 8 * |ip.bytes|))
  }

  predicate IsHostRoute(c: Cidr)
    requires ValidCidr(c)
  {
    c.prefix == (if c.ip.V4? then 32 else 128)
  }

  /** The filter of `build_and_filter_routes`: drops host routes to an endpoint. */
  function FilterRoutes(routes: seq<Cidr>, endpoints: seq<Ip>): (kept: seq<Cidr>)
    requires ValidCidrs(routes)
    ensures ValidCidrs(kept)
  {
    if routes == [] then []
    else
      var init, last := FilterRoutes(routes[..|routes| - 1], endpoints), routes[|routes| - 1];
      if !IsHostRoute(last) || last.ip !in endpoints then init + [last] else init
  }

  /** The filter drops exactly the host routes to endpoints. */
  lemma {:induction false} FilterDropsOnlyEndpointHosts(routes: seq<Cidr>, endpoints: seq<Ip>, c: Cidr)
    requires ValidCidrs(routes) && ValidCidr(c)
    ensures c in FilterRoutes(routes, endpoints) <==> c in routes && !(IsHostRoute(c) && c.ip in endpoints)
  {
    if routes != [] {
      var init, last := routes[..|routes| - 1], routes[|routes| - 1];
      FilterDropsOnlyEndpointHosts(init, endpoints, c);
      assert routes == init + [last];
    }
  }

  lemma HostBits(ip: Ip)
    requires ValidIp(ip)
    ensures HostNetwork(ip).bits == ip.bytes
  {
    var n := 8 * |ip.bytes|;
    forall i | 0 <= i < |ip.bytes|
      ensures Masked(ip.bytes, n)[i] == ip.bytes[i]
    {
    }
  }

  /** No kept route shares a table key with the host route of an endpoint. */
  lemma KeptRoutesAvoidHosts(routes: seq<Cidr>, endpoints: seq<Ip>, c: Cidr, ip: Ip)
    requires ValidCidrs(routes) && ValidCidr(c) && ValidIp(ip)
    requires c in FilterRoutes(routes, endpoints) && ip in endpoints
    ensures NetworkOf(c) != HostNetwork(ip)
  {
    FilterDropsOnlyEndpointHosts(routes, endpoints, c);
    if NetworkOf(c) == HostNetwork(ip) {
      HostBits(ip);
      HostBits(c.ip);
    }
  }

  // ------------------------------------------------------- longest prefix

  predicate NetworkMatches(n: Network, ip: Ip)
    requires ValidIp(ip)
  {
    n.v6 == ip.V6? && n.prefix <= 8 * |ip.bytes| && n.bits == Masked(ip.bytes, n.prefix)
  }

  ghost predicate Selects(t: Table, ip: Ip, n: Network)
    requires ValidIp(ip)
  {
    n in t && NetworkMatches(n, ip) && forall o :: o in t && NetworkMatches(o, ip) ==> o.prefix <= n.prefix
  }

  lemma HostRouteWins(t: Table, ip: Ip, n: Network)
    requires ValidIp(ip) && HostNetwork(ip) in t
    ensures Selects(t, ip, n) <==> n == HostNetwork(ip)
  {
    assert NetworkMatches(HostNetwork(ip), ip);
  }

  // ------------------------------------------------------------ installation

  /** The system's route manager. Any call may fail; a failing call may have changed its own entry.
      `faults` counts the failures that the table does not explain. */
  class RouteManager {
    var routes: Table
    var faults: nat

    constructor (routes: Table)
      ensures this.routes == routes && faults == 0
    {
      this.routes, faults := routes, 0;
    }

    /** `EndpointRoute::replace` */
    method Replace(n: Network, egress: Egress) returns (ok: bool)
      modifies this
      ensures ok ==> routes == old(routes)[n := egress] && faults == old(faults)
      ensures !ok ==> faults > old(faults)
      ensures routes - {n} == old(routes) - {n}
    {
      if * {
        routes := routes - {n};
        faults := faults + 1;
        return false;
      }
      if * {
        faults := faults + 1;
        return false;
      }
      routes := routes[n := egress];
      ok := true;
    }

    method Delete(n: Network) returns (ok: bool)
      modifies this
      ensures faults >= old(faults)
      ensures ok ==> n in old(routes) && routes == old(routes) - {n}
      ensures !ok ==> routes == old(routes) || routes == old(routes) - {n}
      ensures !ok && faults == old(faults) ==> n !in old(routes)
    {
      if n !in routes {
        return false;
      }
      if * {
        faults := faults + 1;
        return false;
      }
      routes := routes - {n};
      ok := *;
      faults := if ok then faults else faults + 1;
    }

    method Add(n: Network, egress: Egress) returns (ok: bool)
      modifies this
      ensures faults >= old(faults)
      ensures ok ==> n !in old(routes) && routes == old(routes)[n := egress]
      ensures !ok && faults == old(faults) ==> n in old(routes)
      ensures routes - {n} == old(routes) - {n}
    {
      if n in routes {
        return false;
      }
      if * {
        faults := faults + 1;
        return false;
      }
      routes := routes[n := egress];
      ok := *;
      faults := if ok then faults else faults + 1;
    }
  }

  /** Entry `n` is the same in both tables. */
  predicate SameEntry(s: Table, t: Table, n: Network)
  {
    (n in s <==> n in t) && (n in s ==> s[n] == t[n])
  }

  datatype Endpoint = Endpoint(ip: Ip, egress: Egress)

  predicate ValidEndpoints(endpoints: seq<Endpoint>)
  {
    forall i :: 0 <= i < |endpoints| ==> ValidIp(endpoints[i].ip)
  }

  function Addresses(endpoints: seq<Endpoint>): (ips: seq<Ip>)
    ensures |ips| == |endpoints|
    ensures forall i :: 0 <= i < |endpoints| ==> ips[i] == endpoints[i].ip
  {
    seq(|endpoints|, i requires 0 <= i < |endpoints| => endpoints[i].ip)
  }

  /** Endpoint `i` is the last one with its address. */
  predicate LastFor(endpoints: seq<Endpoint>, i: nat)
  {
    i < |endpoints| && forall j :: i < j < |endpoints| ==> endpoints[j].ip != endpoints[i].ip
  }

  /** Every endpoint address has a host entry with the egress of its last endpoint. */
  ghost predicate HoldsEndpoints(t: Table, endpoints: seq<Endpoint>)
    requires ValidEndpoints(endpoints)
  {
    forall i :: 0 <= i && LastFor(endpoints, i) ==> HostNetwork(endpoints[i].ip) in t && t[HostNetwork(endpoints[i].ip)] == endpoints[i].egress
  }

  lemma DifferentHosts(a: Ip, b: Ip)
    requires ValidIp(a) && ValidIp(b) && a != b
    ensures HostNetwork(a) != HostNetwork(b)
  {
    HostBits(a);
    HostBits(b);
  }

  lemma HoldsOneMore(t: Table, endpoints: seq<Endpoint>, n: nat)
    requires ValidEndpoints(endpoints) && n < |endpoints| && HoldsEndpoints(t, endpoints[..n])
    ensures HoldsEndpoints(t[HostNetwork(endpoints[n].ip) := endpoints[n].egress], endpoints[..n + 1])
  {
    hide HostNetwork;
    var more := endpoints[..n + 1];
    var t' := t[HostNetwork(endpoints[n].ip) := endpoints[n].egress];
    forall i | 0 <= i && LastFor(more, i)
      ensures HostNetwork(more[i].ip) in t' && t'[HostNetwork(more[i].ip)] == more[i].egress
    {
      if i < n {
        assert more[n].ip != more[i].ip;
        assert forall j :: i < j < n ==> endpoints[..n][j] == more[j];
        assert LastFor(endpoints[..n], i);
        DifferentHosts(more[n].ip, more[i].ip);
      }
    }
  }

  /** The networks that setup may write: endpoint hosts and kept routes. */
  ghost predicate Written(n: Network, allowed: seq<Cidr>, endpoints: seq<Endpoint>)
    requires ValidCidrs(allowed) && ValidEndpoints(endpoints)
  {
    || (exists i :: 0 <= i < |endpoints| && n == HostNetwork(endpoints[i].ip))
    || (exists c :: c in FilterRoutes(allowed, Addresses(endpoints)) && ValidCidr(c) && n == NetworkOf(c))
  }

  ghost predicate OnlyWritten(s: Table, t: Table, allowed: seq<Cidr>, endpoints: seq<Endpoint>)
    requires ValidCidrs(allowed) && ValidEndpoints(endpoints)
  {
    forall n :: !Written(n, allowed, endpoints) ==> SameEntry(s, t, n)
  }

  lemma OneMoreWritten(s: Table, t: Table, t': Table, net: Network, allowed: seq<Cidr>, endpoints: seq<Endpoint>)
    requires ValidCidrs(allowed) && ValidEndpoints(endpoints)
    requires OnlyWritten(s, t, allowed, endpoints) && Written(net, allowed, endpoints) && t' - {net} == t - {net}
    ensures OnlyWritten(s, t', allowed, endpoints)
  {
    hide Written, ValidCidrs, ValidEndpoints;
    forall n | !Written(n, allowed, endpoints)
      ensures SameEntry(s, t', n)
    {
      OthersUnchanged(t, t', net, n);
    }
  }

  /** `add_routes_with_predelete` on the filtered routes: success leaves every endpoint on its own egress and every kept
      route on the tunnel. It fails only through a fault, and touches no other entry in any case. */
  method AddRoutesWithPredelete(manager: RouteManager, allowed: seq<Cidr>, endpoints: seq<Endpoint>) returns (ok: bool)
    requires ValidCidrs(allowed) && ValidEndpoints(endpoints)
    modifies manager
    ensures ok ==> HoldsEndpoints(manager.routes, endpoints)
    ensures ok ==> forall c :: c in FilterRoutes(allowed, Addresses(endpoints)) && ValidCidr(c) ==> NetworkOf(c) in manager.routes && manager.routes[NetworkOf(c)] == Tunnel
    ensures manager.faults >= old(manager.faults) && (!ok ==> manager.faults > old(manager.faults))
    ensures OnlyWritten(old(manager.routes), manager.routes, allowed, endpoints)
  {
    hide HostNetwork, NetworkOf, HoldsEndpoints, ValidCidr;
    NoEndpointsHeld(manager.routes, endpoints);
    for n := 0 to |endpoints|
      invariant HoldsEndpoints(manager.routes, endpoints[..n])
      invariant manager.faults >= old(manager.faults)
      invariant OnlyWritten(old(manager.routes), manager.routes, allowed, endpoints)
    {
      HoldsOneMore(manager.routes, endpoints, n);
      ghost var before := manager.routes;
      var host := HostNetwork(endpoints[n].ip);
      ok := manager.Replace(host, endpoints[n].egress);
      OneMoreWritten(old(manager.routes), before, manager.routes, host, allowed, endpoints);
      if !ok {
        return;
      }
    }
    assert endpoints[..|endpoints|] == endpoints;
    ok := AddKept(manager, allowed, endpoints);
  }

  lemma OthersUnchanged(s: Table, t: Table, n: Network, o: Network)
    requires t - {n} == s - {n} && o != n
    ensures SameEntry(s, t, o)
  {
    assert o in t <==> o in t - {n};
    assert o in s <==> o in s - {n};
    if o in s {
      assert t[o] == (t - {n})[o] && s[o] == (s - {n})[o];
    }
  }

  /** The second loop: each kept route is deleted, if present, and added. */
  method AddKept(manager: RouteManager, allowed: seq<Cidr>, endpoints: seq<Endpoint>) returns (ok: bool)
    requires ValidCidrs(allowed) && ValidEndpoints(endpoints) && HoldsEndpoints(manager.routes, endpoints)
    modifies manager
    ensures HoldsEndpoints(manager.routes, endpoints)
    ensures ok ==> forall c :: c in FilterRoutes(allowed, Addresses(endpoints)) && ValidCidr(c) ==> NetworkOf(c) in manager.routes && manager.routes[NetworkOf(c)] == Tunnel
    ensures manager.faults >= old(manager.faults) && (!ok ==> manager.faults > old(manager.faults))
    ensures OnlyWritten(old(manager.routes), manager.routes, allowed, endpoints)
  {
    hide HostNetwork, NetworkOf, HoldsEndpoints, ValidCidr;
    var kept := FilterRoutes(allowed, Addresses(endpoints));
    for n := 0 to |kept|
      invariant HoldsEndpoints(manager.routes, endpoints)
      invariant manager.faults >= old(manager.faults)
      invariant forall m :: 0 <= m < n ==> NetworkOf(kept[m]) in manager.routes && manager.routes[NetworkOf(kept[m])] == Tunnel
      invariant OnlyWritten(old(manager.routes), manager.routes, allowed, endpoints)
    {
      ghost var before := manager.routes;
      var net := NetworkOf(kept[n]);
      AvoidsEveryHost(allowed, endpoints, kept[n]);
      assert Written(net, allowed, endpoints) by { assert kept[n] in kept; }
      var _ := manager.Delete(net);
      assert manager.routes - {net} == before - {net};
      ok := manager.Add(net, Tunnel);
      OneMoreWritten(old(manager.routes), before, manager.routes, net, allowed, endpoints);
      HoldsElsewhere(before, manager.routes, endpoints, net);
      if !ok {
        return;
      }
    }
    ok := true;
  }

  lemma NoEndpointsHeld(t: Table, endpoints: seq<Endpoint>)
    requires ValidEndpoints(endpoints)
    ensures HoldsEndpoints(t, endpoints[..0])
  {}

  lemma AvoidsEveryHost(allowed: seq<Cidr>, endpoints: seq<Endpoint>, c: Cidr)
    requires ValidCidrs(allowed) && ValidEndpoints(endpoints) && ValidCidr(c) && c in FilterRoutes(allowed, Addresses(endpoints))
    ensures forall i :: 0 <= i < |endpoints| ==> NetworkOf(c) != HostNetwork(endpoints[i].ip)
  {
    hide HostNetwork, NetworkOf;
    forall i | 0 <= i < |endpoints|
      ensures NetworkOf(c) != HostNetwork(endpoints[i].ip)
    {
      assert Addresses(endpoints)[i] in Addresses(endpoints);
      KeptRoutesAvoidHosts(allowed, Addresses(endpoints), c, endpoints[i].ip);
    }
  }

  lemma HoldsElsewhere(t: Table, t': Table, endpoints: seq<Endpoint>, net: Network)
    requires ValidEndpoints(endpoints) && HoldsEndpoints(t, endpoints)
    requires forall i :: 0 <= i < |endpoints| ==> net != HostNetwork(endpoints[i].ip)
    requires t' - {net} == t - {net}
    ensures HoldsEndpoints(t', endpoints)
  {
    hide HostNetwork;
    forall i | 0 <= i && LastFor(endpoints, i)
      ensures HostNetwork(endpoints[i].ip) in t' && t'[HostNetwork(endpoints[i].ip)] == endpoints[i].egress
    {
      OthersUnchanged(t, t', net, HostNetwork(endpoints[i].ip));
    }
  }

  /** A longest-prefix lookup of an endpoint's address then has one answer, that endpoint's egress, for every list of allowed IPs. */
  lemma EndpointsKeepTheirEgress(t: Table, endpoints: seq<Endpoint>, i: nat)
    requires ValidEndpoints(endpoints) && HoldsEndpoints(t, endpoints) && LastFor(endpoints, i)
    ensures forall n :: Selects(t, endpoints[i].ip, n) <==> n == HostNetwork(endpoints[i].ip)
    ensures HostNetwork(endpoints[i].ip) in t && t[HostNetwork(endpoints[i].ip)] == endpoints[i].egress
  {
    hide HostNetwork, Selects;
    forall n
      ensures Selects(t, endpoints[i].ip, n) <==> n == HostNetwork(endpoints[i].ip)
    {
      HostRouteWins(t, endpoints[i].ip, n);
    }
  }

  // ----------------------------------------------------------------- cleanup

  /** The routes are different ones, and all in the table. */
  predicate AllInstalled(t: Table, routes: seq<Network>)
  {
    NoDuplicates(routes) && forall i :: 0 <= i < |routes| ==> routes[i] in t
  }

  /** One of the deletion loops of `cleanup_routes`, last route first: every deletion is tried, nothing else is touched,
      and without a fault none of the routes is left. It then succeeds exactly when the routes are installed. */
  method DeleteAll(manager: RouteManager, routes: seq<Network>) returns (ok: bool)
    modifies manager
    ensures manager.faults >= old(manager.faults)
    ensures ok || manager.faults == old(manager.faults) ==> forall i :: 0 <= i < |routes| ==> routes[i] !in manager.routes
    ensures ok ==> AllInstalled(old(manager.routes), routes)
    ensures manager.faults == old(manager.faults) && AllInstalled(old(manager.routes), routes) ==> ok
    ensures forall n :: n in manager.routes ==> n in old(manager.routes)
    ensures forall n :: n !in routes ==> SameEntry(manager.routes, old(manager.routes), n)
  {
    ok := true;
    var i := |routes|;
    while i > 0
      invariant 0 <= i <= |routes| && manager.faults >= old(manager.faults)
      invariant ok || manager.faults == old(manager.faults) ==> forall m :: i <= m < |routes| ==> routes[m] !in manager.routes
      invariant ok ==> forall m :: i <= m < |routes| ==> routes[m] in old(manager.routes)
      invariant ok ==> forall m, n :: i <= m < n < |routes| ==> routes[m] != routes[n]
      invariant manager.faults == old(manager.faults) && AllInstalled(old(manager.routes), routes)
                ==> ok && forall m :: 0 <= m < i ==> routes[m] in manager.routes
      invariant forall n :: n in manager.routes ==> n in old(manager.routes)
      invariant forall n :: n !in routes ==> SameEntry(manager.routes, old(manager.routes), n)
    {
      i := i - 1;
      var deleted := manager.Delete(routes[i]);
      ok := ok && deleted;
    }
  }

  lemma EndpointsStayInstalled(t: Table, t': Table, filtered: seq<Network>, endpoints: seq<Network>)
    requires AllInstalled(t, filtered + endpoints)
    requires forall n :: n !in filtered ==> SameEntry(t', t, n)
    ensures AllInstalled(t, filtered) && AllInstalled(t', endpoints)
  {
    var all := filtered + endpoints;
    assert forall i :: 0 <= i < |filtered| ==> filtered[i] == all[i];
    forall i | 0 <= i < |endpoints|
      ensures all[|filtered| + i] == endpoints[i] && endpoints[i] !in filtered
    {
      assert forall j :: 0 <= j < |filtered| ==> filtered[j] == all[j] != all[|filtered| + i];
    }
  }

  lemma BothWereInstalled(t: Table, t': Table, filtered: seq<Network>, endpoints: seq<Network>)
    requires AllInstalled(t, filtered) && AllInstalled(t', endpoints)
    requires forall n :: n in t' ==> n in t
    requires forall i :: 0 <= i < |filtered| ==> filtered[i] !in t'
    ensures AllInstalled(t, filtered + endpoints)
  {
    var all := filtered + endpoints;
    forall i, j | 0 <= i < j < |all|
      ensures all[i] != all[j]
    {
      assert i < |filtered| ==> all[i] == filtered[i];
      assert i >= |filtered| ==> all[i] == endpoints[i - |filtered|];
      assert j >= |filtered| ==> all[j] == endpoints[j - |filtered|];
    }
  }

  /** `cleanup_routes`: TUN routes are deleted if the route manager opens, endpoint routes and DNS in any case. After success,
      or without faults, no route of the session is left. Success means that all routes were installed, and without faults
      it is reported exactly when they were and the other two parts succeed. */
  method CleanupRoutes(manager: RouteManager, opens: bool, filtered: seq<Network>, endpoints: seq<Network>, dnsTornDown: bool)
    returns (ok: bool)
    modifies manager
    ensures manager.faults >= old(manager.faults)
    ensures ok ==> opens && dnsTornDown && AllInstalled(old(manager.routes), filtered + endpoints)
    ensures ok ==> forall n :: n in filtered + endpoints ==> n in old(manager.routes) && n !in manager.routes
    ensures manager.faults == old(manager.faults) ==> forall n :: n in endpoints || (opens && n in filtered) ==> n !in manager.routes
    ensures manager.faults == old(manager.faults) ==> (ok <==> opens && dnsTornDown && AllInstalled(old(manager.routes), filtered + endpoints))
    ensures forall n :: n !in filtered + endpoints ==> SameEntry(manager.routes, old(manager.routes), n)
  {
    hide AllInstalled;
    ok := opens;
    if opens {
      ok := DeleteAll(manager, filtered);
    }
    ghost var middle := manager.routes;
    if AllInstalled(old(manager.routes), filtered + endpoints) {
      EndpointsStayInstalled(old(manager.routes), middle, filtered, endpoints);
    }
    var removed := DeleteAll(manager, endpoints);
    if ok && removed {
      BothWereInstalled(old(manager.routes), middle, filtered, endpoints);
    }
    ok := ok && removed && dnsTornDown;
    InstalledAreThere(old(manager.routes), filtered + endpoints);
  }

  lemma InstalledAreThere(t: Table, routes: seq<Network>)
    ensures AllInstalled(t, routes) ==> forall n :: n in routes ==> n in t
  {}

  // ----------------------------------------------------- setup with rollback

  function KeptNetworks(allowed: seq<Cidr>, endpoints: seq<Endpoint>): (s: seq<Network>)
    requires ValidCidrs(allowed)
    ensures |s| == |FilterRoutes(allowed, Addresses(endpoints))|
  {
    var kept := FilterRoutes(allowed, Addresses(endpoints));
    seq(|kept|, i requires 0 <= i < |kept| => NetworkOf(kept[i]))
  }

  function HostNetworks(endpoints: seq<Endpoint>): (s: seq<Network>)
    requires ValidEndpoints(endpoints)
    ensures |s| == |endpoints|
  {
    seq(|endpoints|, i requires 0 <= i < |endpoints| => HostNetwork(endpoints[i].ip))
  }

  /** Every route that a successful setup leaves behind. */
  function SessionNetworks(allowed: seq<Cidr>, endpoints: seq<Endpoint>): seq<Network>
    requires ValidCidrs(allowed) && ValidEndpoints(endpoints)
  {
    KeptNetworks(allowed, endpoints) + HostNetworks(endpoints)
  }

  lemma {:induction false} EndpointIsHeld(t: Table, endpoints: seq<Endpoint>, i: nat)
    requires ValidEndpoints(endpoints) && HoldsEndpoints(t, endpoints) && i < |endpoints|
    ensures HostNetwork(endpoints[i].ip) in t
    decreases |endpoints| - i
  {
    hide HostNetwork;
    if j :| i < j < |endpoints| && endpoints[j].ip == endpoints[i].ip {
      EndpointIsHeld(t, endpoints, j);
    } else {
      assert LastFor(endpoints, i);
    }
  }

  /** After a successful setup the session's routes are installed, so a cleanup can report success exactly when no route is
      listed twice: two endpoints with one address, or two allowed IPs with one network, make it report an error. */
  lemma InstalledUnlessRepeated(t: Table, allowed: seq<Cidr>, endpoints: seq<Endpoint>)
    requires ValidCidrs(allowed) && ValidEndpoints(endpoints) && HoldsEndpoints(t, endpoints)
    requires forall c :: c in FilterRoutes(allowed, Addresses(endpoints)) && ValidCidr(c) ==> NetworkOf(c) in t
    ensures AllInstalled(t, SessionNetworks(allowed, endpoints)) <==> NoDuplicates(SessionNetworks(allowed, endpoints))
  {
    hide HostNetwork, NetworkOf, HoldsEndpoints, FilterRoutes;
    var kept, all := FilterRoutes(allowed, Addresses(endpoints)), SessionNetworks(allowed, endpoints);
    forall n | 0 <= n < |all|
      ensures all[n] in t
    {
      if n < |kept| {
        assert all[n] == NetworkOf(kept[n]) && kept[n] in kept;
      } else {
        EndpointIsHeld(t, endpoints, n - |kept|);
      }
    }
  }

  lemma WrittenIffListed(allowed: seq<Cidr>, endpoints: seq<Endpoint>, n: Network)
    requires ValidCidrs(allowed) && ValidEndpoints(endpoints)
    ensures Written(n, allowed, endpoints) <==> n in SessionNetworks(allowed, endpoints)
  {
    hide HostNetwork, NetworkOf, FilterRoutes;
    var kept, k, h := FilterRoutes(allowed, Addresses(endpoints)), KeptNetworks(allowed, endpoints), HostNetworks(endpoints);
    assert forall i :: 0 <= i < |kept| ==> k[i] == NetworkOf(kept[i]);
    assert forall i :: 0 <= i < |endpoints| ==> h[i] == HostNetwork(endpoints[i].ip);
    if c :| c in kept && ValidCidr(c) && n == NetworkOf(c) {
      var i :| 0 <= i < |kept| && kept[i] == c;
      assert k[i] == n;
    }
    if i :| 0 <= i < |endpoints| && n == HostNetwork(endpoints[i].ip) {
      assert h[i] == n;
    }
  }

  /** Setup and `into_cleanup_hook`: a failure of routes or DNS is followed by the cleanup, whose success means that no route
      of the session is left. Without faults only DNS makes setup fail, no route of the session is left if the manager opens,
      and the cleanup reports success exactly when no route was listed twice. Other entries are untouched in any case. */
  method SetUpRoutes(manager: RouteManager, allowed: seq<Cidr>, endpoints: seq<Endpoint>, dnsReady: bool, opens: bool, dnsTornDown: bool)
    returns (ok: bool, cleaned: bool)
    requires ValidCidrs(allowed) && ValidEndpoints(endpoints)
    modifies manager
    ensures ok ==> dnsReady && HoldsEndpoints(manager.routes, endpoints)
    ensures ok ==> forall c :: c in FilterRoutes(allowed, Addresses(endpoints)) && ValidCidr(c) ==> NetworkOf(c) in manager.routes && manager.routes[NetworkOf(c)] == Tunnel
    ensures !ok && cleaned ==> forall n :: n in SessionNetworks(allowed, endpoints) ==> n !in manager.routes
    ensures !ok && manager.faults == old(manager.faults) ==> !dnsReady
    ensures !ok && manager.faults == old(manager.faults) && opens ==> forall n :: n in SessionNetworks(allowed, endpoints) ==> n !in manager.routes
    ensures !ok && manager.faults == old(manager.faults) && opens && dnsTornDown ==> (cleaned <==> NoDuplicates(SessionNetworks(allowed, endpoints)))
    ensures forall n :: n !in SessionNetworks(allowed, endpoints) ==> SameEntry(manager.routes, old(manager.routes), n)
  {
    hide HoldsEndpoints, AllInstalled, FilterRoutes, NetworkOf, HostNetwork, Written, NoDuplicates, KeptNetworks, HostNetworks;
    ok := AddRoutesWithPredelete(manager, allowed, endpoints);
    forall n | n !in SessionNetworks(allowed, endpoints)
      ensures SameEntry(old(manager.routes), manager.routes, n)
    {
      WrittenIffListed(allowed, endpoints, n);
    }
    if ok {
      InstalledUnlessRepeated(manager.routes, allowed, endpoints);
    }
    ok, cleaned := ok && dnsReady, false;
    if !ok {
      cleaned := CleanupRoutes(manager, opens, KeptNetworks(allowed, endpoints), HostNetworks(endpoints), dnsTornDown);
    }
  }
}
