/** The journal as the session object runs it, and session setup with rollback (platform/routes_macos.rs, platform/macos.rs). */
module MacSession {
  import opened Results
  import opened RoutingMessage
  import opened RouteSnapshot
  import opened RoutePath
  import opened RouteJournal

  /** The routing socket. Any call may fail, and a failing request may still have been carried out.
      `faults` counts the failures that the arguments and the table do not explain. */
  class KernelRoutes {
    var routes: Table
    var faults: nat

    constructor (routes: Table)
      ensures this.routes == routes && faults == 0
    {
      this.routes, faults := routes, 0;
    }

    /** `RouteTable::find` */
    method Find(key: RouteKey) returns (r: Result<Option<Snapshot>>)
      modifies this`faults
      ensures r.Ok? ==> r.value == Lookup(routes, key) && faults == old(faults)
      ensures r.Err? ==> faults > old(faults)
    {
      if * {
        faults := faults + 1;
        r := Err;
      } else {
        r := Ok(Lookup(routes, key));
      }
    }

    /** `RouteTable::request` */
    method Request(route: Snapshot, operation: bv8) returns (reply: Reply)
      modifies this
      ensures Requested(old(routes), route, operation, routes, reply) && faults >= old(faults)
      ensures faults == old(faults) ==> (reply == Done <==> Possible(old(routes), route, operation))
      ensures faults == old(faults) && reply == Absent ==> operation != RTM_ADD
      ensures faults == old(faults) && reply == Failed
              ==> Message(route, operation).Err? || Key(route).Err? || operation == RTM_ADD
    {
      hide Key, Message;
      if Message(route, operation).Err? || Key(route).Err? {
        return Failed;
      }
      var k, m := Key(route).value, Message(route, operation).value;
      if operation == RTM_ADD && k in routes {
        return Failed;
      }
      if operation != RTM_ADD && k !in routes {
        return Absent;
      }
      if * {
        faults := faults + 1;
        return Failed;
      }
      routes := if operation == RTM_ADD then routes[k := m] else routes - {k};
      if * {
        faults := faults + 1;
        return Failed;
      }
      reply := Done;
    }
  }

  /** `SessionRoutes` */
  class SessionRoutes {
    var changes: Journal

    constructor ()
      ensures changes == []
    {
      changes := [];
    }

    /** `add`: the change is recorded before the displaced entry is deleted. Without a fault it succeeds exactly when the
        route, and the entry it displaces, can be sent. */
    method Add(route: Snapshot, table: KernelRoutes) returns (ok: bool)
      modifies this, table
      ensures Added(old(table.routes), old(changes), route, table.routes, changes, ok)
      ensures table.faults >= old(table.faults)
      ensures ValidTable(old(table.routes)) && table.faults == old(table.faults)
              ==> (ok <==> Addable(old(table.routes), old(changes), route))
    {
      hide Key, Message;
      if Key(route).Err? {
        return false;
      }
      var key := Key(route).value;
      if exists i :: 0 <= i < |changes| && changes[i].key == key {
        return true;
      }
      var found := table.Find(key);
      if found.Err? {
        return false;
      }
      var previous := found.value;
      if previous.Some? && Message(previous.value, RTM_ADD).Err? {
        return false;
      }
      changes := changes + [Change(key, route, previous, false)];
      var last := |changes| - 1;
      if previous.Some? {
        SendableEitherWay(previous.value, RTM_ADD, RTM_DELETE);
        var deleted := table.Request(previous.value, RTM_DELETE);
        if deleted != Done {
          return false;
        }
      }
      changes := changes[last := changes[last].(attempted := true)];
      assert changes == old(changes) + [Change(key, route, previous, true)];
      var added := table.Request(route, RTM_ADD);
      ok := added == Done;
    }

    /** `install`: the requests in order, stopping at the first that cannot be built or fails. */
    method Install(requests: seq<Result<Snapshot>>, table: KernelRoutes) returns (ok: bool, ghost tried: seq<Snapshot>, ghost reports: seq<bool>)
      requires ValidTable(table.routes) && ValidJournal(changes)
      modifies this, table
      ensures AddRun(old(table.routes), old(changes), tried, table.routes, changes, reports)
      ensures |tried| <= |requests| && forall i :: 0 <= i < |tried| ==> requests[i] == Ok(tried[i])
      ensures ok ==> |tried| == |requests| && AllTrue(reports)
      ensures |reports| == |tried| && forall i :: 0 <= i < |reports| - 1 ==> reports[i]
      ensures table.faults >= old(table.faults)
      ensures !ok && table.faults == old(table.faults) ==> Blocked(old(table.routes), old(changes), requests, tried, reports)
    {
      hide Added, AddRun, Addable, ValidTable, ValidJournal;
      tried, reports := [], [];
      ok := true;
      EmptyRun(table.routes, changes);
      for n := 0 to |requests|
        invariant AddRun(old(table.routes), old(changes), tried, table.routes, changes, reports)
        invariant ValidTable(table.routes) && ValidJournal(changes) && table.faults >= old(table.faults)
        invariant |tried| == n && |reports| == n && AllTrue(reports) && ok
        invariant forall i :: 0 <= i < n ==> requests[i] == Ok(tried[i])
      {
        if requests[n].Err? {
          ok := false;
          return;
        }
        ghost var t1, j1 := table.routes, changes;
        ok := Add(requests[n].value, table);
        AddKeepsJournal(t1, j1, requests[n].value, table.routes, changes, ok);
        AddRunSnoc(old(table.routes), old(changes), tried, t1, j1, reports, requests[n].value, table.routes, changes, ok);
        ghost var t0, r0 := tried, reports;
        tried, reports := tried + [requests[n].value], reports + [ok];
        if !ok {
          assert tried[..n] == t0 && reports[..n] == r0;
          return;
        }
      }
    }

    /** `restore_with`: takes the journal and undoes every change, last one first, collecting errors. Each fault troubles one
        change at most; the others are calm, so they are undone as if there were no faults. */
    method RestoreWith(table: KernelRoutes) returns (ok: bool, ghost oks: seq<bool>, ghost calm: seq<bool>)
      requires ValidTable(table.routes) && ValidJournal(changes)
      modifies this, table
      ensures changes == []
      ensures Restored(old(changes), old(table.routes), table.routes, oks, calm)
      ensures ok == AllTrue(oks)
      ensures old(changes) == [] ==> ok && table.routes == old(table.routes)
      ensures table.faults >= old(table.faults) + |Troubled(calm)|
      ensures table.faults == old(table.faults) ==> AllTrue(calm) && (table.routes, oks) == RestoreAll(old(changes), 0, old(table.routes))
    {
      hide RestoredChange, RestoreChange, ValidTable, ValidChange, Troubled, RestoreAll, AllTrue, DistinctKeys;
      var taken := changes;
      changes := [];
      ok := true;
      calm := seq(|taken|, _ => true);
      oks := calm;
      var i := |taken|;
      NoTrouble(|taken|);
      while i > 0
        invariant 0 <= i <= |taken| == |oks| == |calm| && changes == []
        invariant RestoredFrom(taken, i, old(table.routes), table.routes, oks, calm)
        invariant forall m :: 0 <= m < i ==> oks[m] && calm[m]
        invariant ok == AllTrue(oks)
        invariant ValidTable(table.routes) && table.faults >= old(table.faults) + |Troubled(calm)|
        invariant table.faults == old(table.faults) ==> AllTrue(calm)
      {
        i := i - 1;
        ghost var t1, before, quiet, faults := table.routes, oks, calm, table.faults;
        var restored := Restore(taken[i], table);
        ChangeOutcome(taken[i], t1, table.routes, restored);
        oks, calm := oks[i := restored], calm[i := table.faults == faults];
        ok := ok && restored;
        OneMoreReport(quiet, i, table.faults == faults);
        OneMoreReport(before, i, restored);
        SameReports(taken, i + 1, old(table.routes), t1, before, oks, quiet, calm);
        assert oks[i] == restored;
        assert forall m :: 0 <= m < |oks| && m != i ==> oks[m] == before[m] && calm[m] == quiet[m];
      }
      NothingTaken(taken, old(table.routes), table.routes, oks, calm);
      if AllTrue(calm) {
        CalmRestore(taken, 0, old(table.routes), table.routes, oks, calm);
        assert oks[0..] == oks;
      }
    }

    /** `RouteChange::restore`. Without a fault the outcome is determined. */
    method Restore(change: Change, table: KernelRoutes) returns (ok: bool)
      requires ValidTable(table.routes) && ValidChange(change)
      modifies table
      ensures RestoredChange(change, old(table.routes), table.routes, ok)
      ensures table.faults >= old(table.faults)
      ensures table.faults == old(table.faults) ==> (table.routes, ok) == RestoreChange(change, old(table.routes))
    {
      hide Key, Message, SamePath;
      var found := table.Find(change.key);
      if found.Err? {
        return false;
      }
      if found.value.Some? {
        var current := found.value.value;
        if !change.attempted {
          return true;
        }
        if SamePath(current, change.route) != Ok(true) {
          return false;
        }
        var deleted := table.Request(current, RTM_DELETE);
        if deleted == Failed {
          return false;
        }
      }
      if change.previous.Some? {
        var added := table.Request(change.previous.value, RTM_ADD);
        return added == Done;
      }
      ok := true;
    }
  }

  /** Why an install without faults stopped: a request could not be built, or could not be added where it was tried. */
  ghost predicate Blocked(t: Table, j: Journal, requests: seq<Result<Snapshot>>, tried: seq<Snapshot>, reports: seq<bool>)
  {
    || (|tried| < |requests| && requests[|tried|].Err?)
    || (0 < |tried| == |reports| && BlockedAt(t, j, tried[..|tried| - 1], reports[..|tried| - 1], tried[|tried| - 1]))
  }

  ghost predicate BlockedAt(t: Table, j: Journal, tried: seq<Snapshot>, reports: seq<bool>, route: Snapshot)
  {
    exists t1, j1 :: AddRun(t, j, tried, t1, j1, reports) && !Addable(t1, j1, route)
  }

  lemma EmptyRun(t: Table, j: Journal)
    ensures AddRun(t, j, [], t, j, [])
  {}

  /** The changes that met a fault. */
  ghost function Troubled(calm: seq<bool>): set<int>
  {
    set i | 0 <= i < |calm| && !calm[i]
  }

  lemma NoTrouble(n: nat)
    ensures var calm := seq(n, _ => true); AllTrue(calm) && Troubled(calm) == {}
  {}

  lemma NothingTaken(j: Journal, t: Table, t': Table, oks: seq<bool>, calm: seq<bool>)
    requires Restored(j, t, t', oks, calm)
    ensures j == [] ==> t' == t && AllTrue(oks)
  {
    hide RestoredChange, RestoreChange, ValidChange;
  }

  /** A restore of calm changes is the fault-free one. */
  lemma {:induction false} CalmRestore(j: Journal, i: nat, t: Table, t': Table, oks: seq<bool>, calm: seq<bool>)
    requires i <= |j| == |oks| == |calm| && ValidJournal(j) && AllTrue(calm) && RestoredFrom(j, i, t, t', oks, calm)
    ensures (t', oks[i..]) == RestoreAll(j, i, t)
    decreases |j| - i
  {
    hide RestoredChange, RestoreChange, ValidChange;
    if i < |j| {
      var t1 :| RestoredFrom(j, i + 1, t, t1, oks, calm)
                && RestoredChange(j[i], t1, t', oks[i]) && (calm[i] ==> (t', oks[i]) == RestoreChange(j[i], t1));
      CalmRestore(j, i + 1, t, t1, oks, calm);
      assert oks[i..] == [oks[i]] + oks[i + 1..];
    } else {
      assert oks[i..] == [];
    }
  }

  lemma OneMoreReport(calm: seq<bool>, i: nat, quiet: bool)
    requires i < |calm| && calm[i]
    ensures |Troubled(calm[i := quiet])| == |Troubled(calm)| + (if quiet then 0 else 1)
    ensures AllTrue(calm[i := quiet]) == (AllTrue(calm) && quiet)
  {
    var next := calm[i := quiet];
    assert Troubled(next) == Troubled(calm) + (if quiet then {} else {i});
    assert AllTrue(calm) && quiet ==> next == calm;
    assert AllTrue(next) ==> quiet && forall m :: 0 <= m < |calm| ==> next[m] && calm[m];
  }

  lemma {:induction false} SameReports(j: Journal, i: nat, t: Table, t': Table, a: seq<bool>, b: seq<bool>, c: seq<bool>, d: seq<bool>)
    requires i <= |j| == |a| == |b| == |c| == |d| && ValidJournal(j)
    requires (forall m :: i <= m < |j| ==> a[m] == b[m] && c[m] == d[m]) && RestoredFrom(j, i, t, t', a, c)
    ensures RestoredFrom(j, i, t, t', b, d)
    decreases |j| - i
  {
    hide RestoredChange, RestoreChange, ValidChange;
    if i < |j| {
      var t1 :| RestoredFrom(j, i + 1, t, t1, a, c)
                && RestoredChange(j[i], t1, t', a[i]) && (c[i] ==> (t', a[i]) == RestoreChange(j[i], t1));
      SameReports(j, i + 1, t, t1, a, b, c, d);
    }
  }

  // ------------------------------------------------------------ session setup

  datatype Resolver = Resolver(servers: seq<string>, domains: seq<string>)

  /** The dynamic store, by interface. A failing call may have changed the interface's own entry. */
  class DnsStore {
    var entries: map<string, Resolver>
    var faults: nat

    constructor (entries: map<string, Resolver>)
      ensures this.entries == entries && faults == 0
    {
      this.entries, faults := entries, 0;
    }

    /** `clear_dns_entries` */
    method Clear(interface: string) returns (ok: bool)
      modifies this
      ensures ok ==> interface !in entries && faults == old(faults)
      ensures !ok ==> faults > old(faults)
      ensures entries - {interface} == old(entries) - {interface}
    {
      ok := *;
      var done: bool := *;
      if ok || done {
        entries := entries - {interface};
      }
      faults := if ok then faults else faults + 1;
    }

    /** `set_dns_entries` */
    method Set(interface: string, resolver: Resolver) returns (ok: bool)
      modifies this
      ensures ok ==> interface in entries && entries[interface] == resolver && faults == old(faults)
      ensures !ok ==> faults > old(faults)
      ensures entries - {interface} == old(entries) - {interface}
    {
      ok := *;
      var done: bool := *;
      if ok || done {
        entries := entries[interface := resolver];
      }
      faults := if ok then faults else faults + 1;
    }
  }

  /** The cleanup closure: both parts run, and either error is reported. */
  method Cleanup(session: SessionRoutes, table: KernelRoutes, dns: DnsStore, interface: string)
    returns (ok: bool, ghost oks: seq<bool>, ghost calm: seq<bool>)
    requires ValidTable(table.routes) && ValidJournal(session.changes)
    modifies session, table, dns
    ensures session.changes == []
    ensures Restored(old(session.changes), old(table.routes), table.routes, oks, calm)
    ensures ok ==> AllTrue(oks) && interface !in dns.entries
    ensures !ok ==> !AllTrue(oks) || dns.faults > old(dns.faults)
    ensures dns.faults == old(dns.faults) ==> interface !in dns.entries
    ensures dns.entries - {interface} == old(dns.entries) - {interface}
    ensures table.faults >= old(table.faults) + |Troubled(calm)| && dns.faults >= old(dns.faults)
    ensures table.faults == old(table.faults)
            ==> AllTrue(calm) && (table.routes, oks) == RestoreAll(old(session.changes), 0, old(table.routes))
  {
    hide Restored, RestoreAll, ValidTable, ValidJournal;
    var routesRestored;
    routesRestored, oks, calm := session.RestoreWith(table);
    var dnsCleared := dns.Clear(interface);
    ok := routesRestored && dnsCleared;
  }

  ghost predicate AllRemovable(j: Journal, t: Table)
  {
    forall m :: 0 <= m < |j| ==> Removable(j[m], t)
  }

  /** A faultless restore of a journal that explains the table succeeds exactly when its routes can be recognised. */
  lemma FaultlessRestore(before: Table, now: Table, j: Journal)
    requires ValidTable(now) && Explains(before, now, j)
    ensures AllTrue(RestoreAll(j, 0, now).1) <==> AllRemovable(j, now)
  {
    hide Key, Message, Removable, RestoreAll, Underway;
    CooperativeRestore(j, now);
    var oks := RestoreAll(j, 0, now).1;
    assert |oks| == |j|;
    assert forall m :: 0 <= m < |j| ==> Underway(j[m], Lookup(now, j[m].key)) && (oks[m] <==> Removable(j[m], now));
  }

  /** `configure_session`. Any failure, of a route or of DNS, is followed by the cleanup; when that reports no error
      the routing table is as before and the interface has no resolver. On success the journal can undo the session.
      Without faults setup fails only when a request is blocked, and the cleanup then succeeds exactly when the session's
      own routes can be recognised. */
  method ConfigureSession(session: SessionRoutes, table: KernelRoutes, dns: DnsStore, interface: string,
                          requests: seq<Result<Snapshot>>, resolver: Resolver)
    returns (ok: bool, cleaned: bool, ghost middle: Table, ghost journal: Journal, ghost tried: seq<Snapshot>, ghost reports: seq<bool>)
    requires session.changes == [] && ValidTable(table.routes)
    modifies session, table, dns
    ensures AddRun(old(table.routes), [], tried, middle, journal, reports)
    ensures ValidTable(middle) && Explains(old(table.routes), middle, journal)
    ensures ok ==> table.routes == middle && session.changes == journal && |tried| == |requests| && AllTrue(reports)
    ensures |tried| <= |requests| && forall i :: 0 <= i < |tried| ==> requests[i] == Ok(tried[i])
    ensures ok && resolver.servers != [] && resolver.domains != [] ==> interface in dns.entries && dns.entries[interface] == resolver
    ensures ok && (resolver.servers == [] || resolver.domains == []) ==> interface !in dns.entries
    ensures |reports| == |tried| && forall i :: 0 <= i < |reports| - 1 ==> reports[i]
    ensures !ok ==> session.changes == [] && (dns.faults == old(dns.faults) ==> interface !in dns.entries)
    ensures !ok && cleaned ==> interface !in dns.entries && forall k :: AsBefore(old(table.routes), middle, journal, table.routes, k)
    ensures dns.entries - {interface} == old(dns.entries) - {interface}
    ensures !ok && table.faults == old(table.faults) && dns.faults == old(dns.faults)
            ==> Blocked(old(table.routes), [], requests, tried, reports) && (cleaned <==> AllRemovable(journal, middle))
  {
    hide Explains, ValidTable, Restored, RestoreAll, AsBefore, AddRun, Blocked, AllRemovable, ValidJournal;
    ghost var before := table.routes;
    EmptyJournalExplains(before);
    ExplainedIsValid(before, before, []);
    ok, tried, reports := session.Install(requests, table);
    RunKeepsExplaining(before, before, [], tried, table.routes, session.changes, reports);
    middle, journal := table.routes, session.changes;
    ExplainedIsValid(before, middle, journal);
    cleaned := false;
    if ok {
      ok := dns.Clear(interface);
    }
    if ok && resolver.servers != [] && resolver.domains != [] {
      ok := dns.Set(interface, resolver);
    }
    if !ok {
      ghost var oks, calm;
      cleaned, oks, calm := Cleanup(session, table, dns, interface);
      if cleaned {
        RestoreUndoes(before, middle, journal, table.routes, oks, calm);
      }
      FaultlessRestore(before, middle, journal);
    }
  }

  lemma ExplainedIsValid(before: Table, now: Table, j: Journal)
    requires Explains(before, now, j)
    ensures ValidJournal(j)
  {}
}
