/** The session manager object: `reconcileSessions` and `stop` as they update the session map (crypto/CryptoSessionManagerImpl.kt). */
module SessionManager {
  import opened Results
  import opened Cidr
  import opened CryptokeyRouting
  import opened Reconciliation

  function SetOf(s: seq<nat>): set<nat>
  {
    set h | h in s
  }

  lemma CloseOneMore(pool: Pool, done: set<nat>, h: nat)
    requires h !in done
    ensures Closed(Closed(pool, done), {h}) == Closed(pool, done + {h})
  {}

  lemma CloseNothing(pool: Pool)
    ensures Closed(pool, {}) == pool
  {}

  /** Entries `0..i` of the next map, with `pool` the sessions made so far. */
  ghost predicate Built(st: State, peers: seq<Peer>, keys: seq<string>, i: nat, pool: Pool, next: map<string, Entry>)
    requires i <= |keys|
  {
    && |st.pool| <= |pool| && pool[..|st.pool|] == st.pool
    && (forall k :: k in next <==> k in keys[..i])
    && (forall j :: 0 <= j < i ==> keys[j] in next && Placed(st, peers, keys, j, pool, next[keys[j]]))
    && (forall h :: |st.pool| <= h < |pool| ==> h in Handles(next) && pool[h].active && pool[h].closes == 0)
  }

  lemma HandlesGrow(next: map<string, Entry>, k: string, e: Entry)
    requires k !in next
    ensures Handles(next[k := e]) == Handles(next) + {e.session}
  {
    var more := next[k := e];
    forall h
      ensures h in Handles(more) <==> h in Handles(next) || h == e.session
    {
      if h in Handles(next) {
        var o :| o in next && next[o].session == h;
        assert o in more && more[o].session == h;
      }
      if h == e.session {
        assert k in more && more[k].session == h;
      }
    }
  }

  lemma SamePrefixOf(a: Pool, b: Pool, n: nat)
    requires n <= |a| <= |b| && b[..|a|] == a
    ensures b[..n] == a[..n] && forall h :: 0 <= h < |a| ==> b[h] == a[h]
  {
    assert forall h :: 0 <= h < |a| ==> b[h] == b[..|a|][h];
  }

  lemma StaysPlaced(st: State, peers: seq<Peer>, keys: seq<string>, j: nat, pool: Pool, pool': Pool, e: Entry)
    requires j < |keys| && Placed(st, peers, keys, j, pool, e) && |pool| <= |pool'|
    requires forall h :: 0 <= h < |pool| ==> pool'[h] == pool[h]
    ensures Placed(st, peers, keys, j, pool', e)
  {}

  /** One more entry: reused from the old map, or made by the factory just now. */
  lemma BuiltOneMore(st: State, peers: seq<Peer>, keys: seq<string>, i: nat, pool: Pool, next: map<string, Entry>, pool': Pool, e: Entry)
    requires i < |keys| && Built(st, peers, keys, i, pool, next) && keys[i] !in keys[..i]
    requires Placed(st, peers, keys, i, pool', e)
    requires |pool| <= |pool'| && pool'[..|pool|] == pool
    requires |pool'| == |pool| || (|pool'| == |pool| + 1 && e.session == |pool| && pool'[|pool|].active && pool'[|pool|].closes == 0)
    ensures Built(st, peers, keys, i + 1, pool', next[keys[i] := e])
  {
    hide Placed, Handles;
    var k := keys[i];
    HandlesGrow(next, k, e);
    SamePrefixOf(pool, pool', |st.pool|);
    assert keys[..i + 1] == keys[..i] + [k];
    forall j | 0 <= j < i
      ensures keys[j] in next && keys[j] != k && Placed(st, peers, keys, j, pool', next[keys[j]])
    {
      assert keys[..i][j] == keys[j];
      StaysPlaced(st, peers, keys, j, pool, pool', next[keys[j]]);
    }
  }

  // ---------------------------------------------------------------- factory

  /** What one call of the session factory comes to. */
  datatype Made = Throws | Inactive | Active

  /** The outcomes of the creations of one reconciliation, in order. */
  type Factory = nat -> Made

  ghost predicate AllMade(factory: Factory, n: nat)
  {
    forall m :: 0 <= m < n ==> factory(m) == Active
  }

  /** The session of key `j` can be carried over. */
  ghost predicate CarriedOver(st: State, peers: seq<Peer>, keys: seq<string>, j: nat)
    requires j < |keys|
  {
    exists p :: IsPeerFor(peers, keys[j], p) && Reusable(st, keys[j], p, j + 1)
  }

  /** How many of the first `i` keys need a new session. */
  ghost function Needed(st: State, peers: seq<Peer>, keys: seq<string>, i: nat): nat
    requires i <= |keys|
  {
    if i == 0 then 0 else Needed(st, peers, keys, i - 1) + if CarriedOver(st, peers, keys, i - 1) then 0 else 1
  }

  lemma {:induction false} NeededGrows(st: State, peers: seq<Peer>, keys: seq<string>, i: nat, n: nat)
    requires i <= n <= |keys|
    ensures Needed(st, peers, keys, i) <= Needed(st, peers, keys, n)
    decreases n - i
  {
    if i < n {
      NeededGrows(st, peers, keys, i, n - 1);
    }
  }

  /** The handles of the sessions made by this call, in order, all unclosed. */
  ghost predicate NewlyMade(created: seq<nat>, first: nat, pool: Pool)
  {
    forall m :: 0 <= m < |created| ==> created[m] == first + m < |pool| && pool[created[m]].closes == 0
  }

  lemma OneMoreNewlyMade(created: seq<nat>, first: nat, before: Pool, pool: Pool)
    requires NewlyMade(created, first, before) && |before| == first + |created|
    requires |before| <= |pool| && pool[..|before|] == before
    ensures NewlyMade(created, first, pool)
    ensures |pool| == |before| + 1 && pool[|before|].closes == 0 ==> NewlyMade(created + [|before|], first, pool)
  {
    assert forall h :: 0 <= h < |before| ==> pool[h] == pool[..|before|][h];
  }

  /** Creation number `n` failed: the sessions made before it are all closed. One that the factory returned inactive is
      left as it is, so everything the call made is closed exactly when the factory threw. */
  ghost predicate FailedAt(st: State, st': State, factory: Factory, n: nat)
  {
    && AllMade(factory, n) && factory(n) != Active
    && |st'.pool| == |st.pool| + n + (if factory(n) == Inactive then 1 else 0)
    && ((forall h :: |st.pool| <= h < |st'.pool| ==> st'.pool[h].closes == 1) <==> factory(n) == Throws)
  }

  /** The state of the building loop in front of key `i`. */
  ghost predicate BuiltSoFar(st: State, peers: seq<Peer>, keys: seq<string>, i: nat, pool: Pool, next: map<string, Entry>,
                             created: seq<nat>, factory: Factory)
    requires i <= |keys|
  {
    && Built(st, peers, keys, i, pool, next)
    && |pool| == |st.pool| + |created| && NewlyMade(created, |st.pool|, pool)
    && |created| == Needed(st, peers, keys, i) && AllMade(factory, |created|)
  }

  lemma NothingBuilt(st: State, peers: seq<Peer>, keys: seq<string>, factory: Factory)
    ensures BuiltSoFar(st, peers, keys, 0, st.pool, map[], [], factory)
  {
    BuiltNothing(st, peers, keys);
  }

  /** The reuse test of the source, for the sessions made so far. */
  ghost predicate MayReuse(st: State, pool: Pool, key: string, peer: Peer, index: nat)
  {
    && key in st.entries && st.entries[key].peer == peer && st.entries[key].session < |pool|
    && pool[st.entries[key].session].index == index && pool[st.entries[key].session].active
  }

  lemma CarryOver(st: State, peers: seq<Peer>, keys: seq<string>, i: nat, pool: Pool, next: map<string, Entry>,
                  created: seq<nat>, factory: Factory, peer: Peer)
    requires Owned(st) && UniquePublicKeys(peers) && StrictlySorted(keys) && i < |keys| && IsPeerFor(peers, keys[i], peer)
    requires BuiltSoFar(st, peers, keys, i, pool, next, created, factory) && MayReuse(st, pool, keys[i], peer, i + 1)
    ensures BuiltSoFar(st, peers, keys, i + 1, pool, next[keys[i] := st.entries[keys[i]]], created, factory)
  {
    SamePool(st, peers, keys, i, pool, next);
    hide Owned, Built, Needed, UniquePublicKeys, StrictlySorted, Placed, NewlyMade, AllMade;
    NotBuiltYet(keys, i);
    OneMoreNeeded(st, peers, keys, i, pool, peer);
    ReuseIsPlaced(st, peers, keys, i, pool, peer);
    assert pool[..|pool|] == pool;
    BuiltOneMore(st, peers, keys, i, pool, next, pool, st.entries[keys[i]]);
  }

  lemma MakeNew(st: State, peers: seq<Peer>, keys: seq<string>, i: nat, pool: Pool, next: map<string, Entry>,
                created: seq<nat>, factory: Factory, peer: Peer)
    requires Owned(st) && UniquePublicKeys(peers) && StrictlySorted(keys) && i < |keys| && IsPeerFor(peers, keys[i], peer)
    requires BuiltSoFar(st, peers, keys, i, pool, next, created, factory) && !MayReuse(st, pool, keys[i], peer, i + 1)
    requires factory(|created|) == Active
    ensures var more := pool + [SessionRecord(keys[i], i + 1, true, 0)];
            BuiltSoFar(st, peers, keys, i + 1, more, next[keys[i] := Entry(peer, |pool|)], created + [|pool|], factory)
  {
    SamePool(st, peers, keys, i, pool, next);
    hide Owned, Built, Needed, UniquePublicKeys, StrictlySorted, Placed, NewlyMade, AllMade;
    var more := pool + [SessionRecord(keys[i], i + 1, true, 0)];
    assert more[..|pool|] == pool;
    NotBuiltYet(keys, i);
    OneMoreNeeded(st, peers, keys, i, pool, peer);
    OneMoreMade(factory, |created|);
    OneMoreNewlyMade(created, |st.pool|, pool, more);
    NewIsPlaced(st, peers, keys, i, pool, more, peer, |pool|);
    BuiltOneMore(st, peers, keys, i, pool, next, more, Entry(peer, |pool|));
  }

  lemma StopBuilding(st: State, peers: seq<Peer>, keys: seq<string>, i: nat, pool: Pool, next: map<string, Entry>,
                     created: seq<nat>, factory: Factory, peer: Peer, more: Pool)
    requires Owned(st) && UniquePublicKeys(peers) && i < |keys| && IsPeerFor(peers, keys[i], peer)
    requires BuiltSoFar(st, peers, keys, i, pool, next, created, factory) && !MayReuse(st, pool, keys[i], peer, i + 1)
    requires more == pool || (|more| == |pool| + 1 && more[..|pool|] == pool)
    ensures AllMade(factory, |created|) && |created| < Needed(st, peers, keys, |keys|) && |pool| == |st.pool| + |created|
    ensures |st.pool| <= |more| && more[..|st.pool|] == st.pool && NewlyMade(created, |st.pool|, more)
  {
    SamePool(st, peers, keys, i, pool, next);
    hide Owned, Built, Needed, UniquePublicKeys, NewlyMade, AllMade;
    OneMoreNeeded(st, peers, keys, i, pool, peer);
    NeededGrows(st, peers, keys, i + 1, |keys|);
    assert more[..|pool|] == pool;
    OneMoreNewlyMade(created, |st.pool|, pool, more);
    assert more[..|st.pool|] == more[..|pool|][..|st.pool|];
  }

  lemma SamePool(st: State, peers: seq<Peer>, keys: seq<string>, i: nat, pool: Pool, next: map<string, Entry>)
    requires i <= |keys| && Built(st, peers, keys, i, pool, next)
    ensures |st.pool| <= |pool| && pool[..|st.pool|] == st.pool
  {}

  lemma AllBuilt(st: State, peers: seq<Peer>, keys: seq<string>, pool: Pool, next: map<string, Entry>, created: seq<nat>, factory: Factory)
    requires BuiltSoFar(st, peers, keys, |keys|, pool, next, created, factory)
    ensures Built(st, peers, keys, |keys|, pool, next) && |pool| == |st.pool| + |created| && NewlyMade(created, |st.pool|, pool)
    ensures |created| == Needed(st, peers, keys, |keys|) && AllMade(factory, |created|)
    ensures |st.pool| <= |pool| && pool[..|st.pool|] == st.pool
  {
    hide Needed, NewlyMade, AllMade;
  }

  class CryptoSessionManager {
    var pool: Pool
    var entries: map<string, Entry>
    var stats: map<string, Stats>

    ghost function Value(): State
      reads this
    {
      State(pool, entries, stats)
    }

    constructor ()
      ensures Value() == EMPTY
    {
      pool, entries, stats := [], map[], map[];
    }

    /** `PeerSession.close` */
    method Close(h: nat)
      requires h < |pool|
      modifies this`pool
      ensures pool == Closed(old(pool), {h})
    {
      pool := pool[h := pool[h].(active := false, closes := pool[h].closes + 1)];
    }

    /** `PeerSessionFactory.create`: throws, or returns a session for the peer, active or not. */
    method Create(peer: Peer, index: nat, outcome: Made) returns (made: Option<nat>)
      modifies this`pool
      ensures made.None? <==> outcome == Throws
      ensures made.None? ==> pool == old(pool)
      ensures made.Some? ==> made.value == |old(pool)| && pool == old(pool) + [SessionRecord(peer.publicKey, index, outcome == Active, 0)]
    {
      if outcome == Throws {
        return None;
      }
      made := Some(|pool|);
      pool := pool + [SessionRecord(peer.publicKey, index, outcome == Active, 0)];
    }

    /** The body of the `try` block: builds the next map key by key, stopping at the first creation that fails. */
    method BuildNext(peers: seq<Peer>, keys: seq<string>, factory: Factory) returns (ok: bool, next: map<string, Entry>, created: seq<nat>)
      requires Owned(Value()) && UniquePublicKeys(peers) && keys == SortedKeys(peers)
      modifies this`pool
      ensures ok ==> Built(old(Value()), peers, keys, |keys|, pool, next)
      ensures AllMade(factory, |created|)
      ensures ok ==> |created| == Needed(old(Value()), peers, keys, |keys|) && |pool| == |old(pool)| + |created|
      ensures !ok ==> |created| < Needed(old(Value()), peers, keys, |keys|) && factory(|created|) != Active
      ensures !ok ==> |pool| == |old(pool)| + |created| + if factory(|created|) == Inactive then 1 else 0
      ensures |old(pool)| <= |pool| && pool[..|old(pool)|] == old(pool)
      ensures NewlyMade(created, |old(pool)|, pool)
      ensures |pool| == |old(pool)| + |created| + 1 ==> !pool[|pool| - 1].active && pool[|pool| - 1].closes == 0
    {
      hide SortedKeys, Owned, BuiltSoFar, Built, Needed, AllMade, NewlyMade, UniquePublicKeys, StrictlySorted;
      SortedKeysAreTheKeys(peers);
      ghost var st := Value();
      next, created, ok := map[], [], true;
      NothingBuilt(st, peers, keys, factory);
      for i := 0 to |keys|
        invariant BuiltSoFar(st, peers, keys, i, pool, next, created, factory)
        invariant entries == old(entries) && stats == old(stats) && ok
      {
        var key := keys[i];
        assert key in keys;
        var peer :| peer in peers && peer.publicKey == key;
        if key in entries && entries[key].peer == peer && entries[key].session < |pool|
           && pool[entries[key].session].index == i + 1 && pool[entries[key].session].active {
          CarryOver(st, peers, keys, i, pool, next, created, factory, peer);
          next := next[key := entries[key]];
        } else {
          ghost var before := pool;
          var made := Create(peer, i + 1, factory(|created|));
          if made.None? || !pool[made.value].active {
            ok := false;
            StopBuilding(st, peers, keys, i, before, next, created, factory, peer, pool);
            return;
          }
          MakeNew(st, peers, keys, i, before, next, created, factory, peer);
          created := created + [made.value];
          next := next[key := Entry(peer, made.value)];
        }
      }
      AllBuilt(st, peers, keys, pool, next, created, factory);
    }

    /** The `catch` block: closes what was created, in order. */
    method RollBack(created: seq<nat>)
      requires forall m, n :: 0 <= m < n < |created| ==> created[m] != created[n]
      requires forall m :: 0 <= m < |created| ==> created[m] < |pool|
      modifies this`pool
      ensures pool == Closed(old(pool), SetOf(created))
    {
      hide Closed;
      CloseNothing(pool);
      assert SetOf(created[..0]) == {};
      for m := 0 to |created|
        invariant |pool| == |old(pool)|
        invariant pool == Closed(old(pool), SetOf(created[..m]))
      {
        ghost var done := SetOf(created[..m]);
        CloseOneMore(old(pool), done, created[m]);
        assert created[..m + 1] == created[..m] + [created[m]];
        assert SetOf(created[..m + 1]) == done + {created[m]};
        Close(created[m]);
      }
      assert created[..|created|] == created;
    }

    /** The last loop: closes every previous session whose entry was not carried over. */
    method CloseReplaced(previous: map<string, Entry>, next: map<string, Entry>)
      requires forall k :: k in previous ==> previous[k].session < |pool| && pool[previous[k].session].publicKey == k
      modifies this`pool
      ensures pool == Closed(old(pool), ReplacedHandles(previous, next, previous.Keys))
    {
      hide Closed;
      var rest := previous.Keys;
      ghost var seen: set<string> := {};
      assert ReplacedHandles(previous, next, seen) == {};
      CloseNothing(pool);
      while rest != {}
        invariant rest <= previous.Keys && seen == previous.Keys - rest
        invariant |pool| == |old(pool)| && pool == Closed(old(pool), ReplacedHandles(previous, next, seen))
        decreases rest
      {
        var k :| k in rest;
        ghost var done := ReplacedHandles(previous, next, seen);
        OneMoreReplaced(old(pool), previous, next, seen, k);
        assert done + {} == done;
        if !(k in next && next[k] == previous[k]) {
          CloseOneMore(old(pool), done, previous[k].session);
          Close(previous[k].session);
        }
        rest, seen := rest - {k}, seen + {k};
      }
      assert seen == previous.Keys;
    }

    /** `reconcileSessions`. It succeeds exactly when the peers are accepted and every creation it needs does. */
    method ReconcileSessions(peers: seq<Peer>, factory: Factory) returns (ok: bool)
      requires ValidPeers(peers) && Owned(Value())
      modifies this
      ensures Reconciled(old(Value()), peers, Value(), ok)
      ensures Owned(Value())
      ensures ok <==> Accepted(peers) && AllMade(factory, Needed(old(Value()), peers, SortedKeys(peers), |SortedKeys(peers)|))
      ensures !ok && Accepted(peers) ==> exists n :: 0 <= n && FailedAt(old(Value()), Value(), factory, n)
    {
      hide SortedKeys, Needed, Owned, Built, Closed, ExclusiveOwnership, Replaced, RolledBack, UniquePublicKeys;
      ghost var st := Value();
      NoDuplicatedKeysIsUnique(peers);
      RollBackNothing(st);
      if DuplicatedKeys(peers) != {} {
        return false;
      }
      if exists i :: 0 <= i < |peers| && (peers[i].endpointAddress.None? || peers[i].endpointPort.None?) {
        return false;
      }
      var exclusive := RequireDistinctAllowedIpOwnership(peers);
      if !exclusive {
        return false;
      }
      var keys := SortedKeys(peers);
      var next, created;
      ok, next, created := BuildNext(peers, keys, factory);
      if !ok {
        ghost var made := pool;
        RollBack(created);
        RollBackIsComplete(st, made, created, Value());
        assert FailedAt(st, Value(), factory, |created|);
        RollbackKeepsOwned(st, Value());
        return;
      }
      ghost var made := pool;
      var previous := entries;
      stats := stats - (previous.Keys - next.Keys);
      entries := next;
      PreviousSessions(st, made);
      CloseReplaced(previous, next);
      ReplacementIsComplete(st, peers, keys, made, next, Value());
      ReplacementKeepsOwned(st, peers, Value());
    }

    /** `stop`: closes every session of the map and forgets it. */
    method StopSessions()
      requires Owned(Value())
      modifies this
      ensures Stopped(old(Value()), Value())
      ensures Owned(Value())
    {
      hide Owned, Closed;
      ghost var st := Value();
      PreviousSessions(st, pool);
      CloseReplaced(entries, map[]);
      AllAreReplaced(entries);
      entries, stats := map[], map[];
      StopKeepsOwned(st, Value());
    }
  }

  function ReplacedHandles(previous: map<string, Entry>, next: map<string, Entry>, seen: set<string>): set<nat>
  {
    set k | k in seen && k in previous && !(k in next && next[k] == previous[k]) :: previous[k].session
  }

  lemma OneMoreReplaced(pool: Pool, previous: map<string, Entry>, next: map<string, Entry>, seen: set<string>, k: string)
    requires forall o :: o in previous ==> previous[o].session < |pool| && pool[previous[o].session].publicKey == o
    requires k in previous && k !in seen
    ensures previous[k].session !in ReplacedHandles(previous, next, seen)
    ensures ReplacedHandles(previous, next, seen + {k})
            == ReplacedHandles(previous, next, seen) + (if k in next && next[k] == previous[k] then {} else {previous[k].session})
  {
    var more := ReplacedHandles(previous, next, seen + {k});
    var done := ReplacedHandles(previous, next, seen);
    forall h
      ensures h in more <==> h in done || (!(k in next && next[k] == previous[k]) && h == previous[k].session)
    {
      if h in done {
        var o :| o in seen && o in previous && !(o in next && next[o] == previous[o]) && previous[o].session == h;
        assert o in seen + {k};
      }
      if !(k in next && next[k] == previous[k]) && h == previous[k].session {
        assert k in seen + {k};
      }
    }
  }

  lemma AllAreReplaced(entries: map<string, Entry>)
    ensures ReplacedHandles(entries, map[], entries.Keys) == Handles(entries)
  {}

  lemma RollBackNothing(st: State)
    ensures RolledBack(st, st)
  {}

  lemma PreviousSessions(st: State, pool: Pool)
    requires Owned(st) && |st.pool| <= |pool| && pool[..|st.pool|] == st.pool
    ensures forall k :: k in st.entries ==> st.entries[k].session < |pool| && pool[st.entries[k].session].publicKey == k
  {
    forall k | k in st.entries
      ensures st.entries[k].session < |pool| && pool[st.entries[k].session].publicKey == k
    {
      assert pool[st.entries[k].session] == pool[..|st.pool|][st.entries[k].session];
    }
  }

  /** What building and rolling back did to session `h`. */
  lemma RolledBackSession(st: State, made: Pool, created: seq<nat>, h: nat)
    requires |st.pool| + |created| <= |made| <= |st.pool| + |created| + 1 && made[..|st.pool|] == st.pool
    requires NewlyMade(created, |st.pool|, made)
    requires |made| == |st.pool| + |created| + 1 ==> !made[|made| - 1].active && made[|made| - 1].closes == 0
    requires h < |made|
    ensures var x := Closed(made, SetOf(created))[h];
            if h < |st.pool| then x == st.pool[h] else !x.active && x.closes == if h < |st.pool| + |created| then 1 else 0
  {
    hide SetOf, Closed;
    CreatedHandles(created, |st.pool|, h);
    ClosedAt(made, SetOf(created), h);
    if h < |st.pool| {
      assert made[h] == made[..|st.pool|][h];
    } else if h < |st.pool| + |created| {
      assert created[h - |st.pool|] == h;
    }
  }

  lemma ClosedAt(pool: Pool, handles: set<nat>, h: nat)
    requires h < |pool|
    ensures Closed(pool, handles)[h] == if h in handles then pool[h].(active := false, closes := pool[h].closes + 1) else pool[h]
  {}

  lemma CreatedHandles(created: seq<nat>, first: nat, h: nat)
    requires forall m :: 0 <= m < |created| ==> created[m] == first + m
    ensures h in SetOf(created) <==> first <= h < first + |created|
  {
    if first <= h < first + |created| {
      assert created[h - first] == h;
    }
  }

  /** Closing the created handles leaves nothing of the failed call but closed sessions. */
  lemma RollBackIsComplete(st: State, made: Pool, created: seq<nat>, st': State)
    requires |st.pool| + |created| <= |made| <= |st.pool| + |created| + 1 && made[..|st.pool|] == st.pool
    requires NewlyMade(created, |st.pool|, made)
    requires |made| == |st.pool| + |created| + 1 ==> !made[|made| - 1].active && made[|made| - 1].closes == 0
    requires st' == st.(pool := Closed(made, SetOf(created)))
    ensures RolledBack(st, st')
    ensures |st'.pool| == |made|
    ensures (forall h :: |st.pool| <= h < |st'.pool| ==> st'.pool[h].closes == 1) <==> |made| == |st.pool| + |created|
  {
    hide Closed, SetOf;
    forall h | 0 <= h < |made|
      ensures if h < |st.pool| then st'.pool[h] == st.pool[h]
              else !st'.pool[h].active && st'.pool[h].closes == if h < |st.pool| + |created| then 1 else 0
    {
      RolledBackSession(st, made, created, h);
    }
    if |made| == |st.pool| + |created| + 1 {
      assert st'.pool[|made| - 1].closes == 0;
    }
  }

  /** The replaced handles are those the success relation names. */
  lemma ReplacedHandlesAreReplaced(st: State, next: map<string, Entry>, h: nat)
    ensures h in ReplacedHandles(st.entries, next, st.entries.Keys) <==> IsReplaced(st, next, h)
  {}

  lemma ReplacementIsComplete(st: State, peers: seq<Peer>, keys: seq<string>, made: Pool, next: map<string, Entry>, st': State)
    requires Owned(st) && keys == SortedKeys(peers) && Built(st, peers, keys, |keys|, made, next)
    requires st' == State(Closed(made, ReplacedHandles(st.entries, next, st.entries.Keys)), next, st.stats - (st.entries.Keys - next.Keys))
    ensures Replaced(st, peers, st')
  {
    hide SortedKeys, IsReplaced, Reusable, Owned;
    var gone := ReplacedHandles(st.entries, next, st.entries.Keys);
    assert keys[..|keys|] == keys;
    forall h | 0 <= h < |made|
      ensures h in gone <==> IsReplaced(st, next, h)
      ensures h < |st.pool| ==> made[h] == st.pool[h]
      ensures h >= |st.pool| ==> st'.pool[h] == made[h]
    {
      ReplacedHandlesAreReplaced(st, next, h);
      if h < |st.pool| {
        assert made[h] == made[..|st.pool|][h];
      } else {
        NewAreNotReplaced(st, next, h);
      }
    }
    forall i | 0 <= i < |keys|
      ensures Placed(st, peers, keys, i, st'.pool, st'.entries[keys[i]])
    {
      assert Placed(st, peers, keys, i, made, next[keys[i]]);
    }
  }

  lemma NewAreNotReplaced(st: State, next: map<string, Entry>, h: nat)
    requires Owned(st) && h >= |st.pool|
    ensures !IsReplaced(st, next, h)
  {}

  lemma OneMoreMade(factory: Factory, n: nat)
    requires AllMade(factory, n) && factory(n) == Active
    ensures AllMade(factory, n + 1)
  {}

  /** The reuse test on the sessions made so far is the one on the sessions before the call. */
  lemma OneMoreNeeded(st: State, peers: seq<Peer>, keys: seq<string>, i: nat, pool: Pool, peer: Peer)
    requires Owned(st) && UniquePublicKeys(peers) && i < |keys| && IsPeerFor(peers, keys[i], peer)
    requires |st.pool| <= |pool| && pool[..|st.pool|] == st.pool
    ensures var reuse := keys[i] in st.entries && st.entries[keys[i]].peer == peer && st.entries[keys[i]].session < |pool|
                         && pool[st.entries[keys[i]].session].index == i + 1 && pool[st.entries[keys[i]].session].active;
            Needed(st, peers, keys, i + 1) == Needed(st, peers, keys, i) + if reuse then 0 else 1
  {
    forall p | IsPeerFor(peers, keys[i], p)
      ensures p == peer
    {
    }
    assert CarriedOver(st, peers, keys, i) <==> Reusable(st, keys[i], peer, i + 1);
    if keys[i] in st.entries {
      var h := st.entries[keys[i]].session;
      assert pool[h] == pool[..|st.pool|][h];
    }
  }

  lemma BuiltNothing(st: State, peers: seq<Peer>, keys: seq<string>)
    ensures Built(st, peers, keys, 0, st.pool, map[])
  {}

  lemma NotBuiltYet(keys: seq<string>, i: nat)
    requires StrictlySorted(keys) && i < |keys|
    ensures keys[i] !in keys[..i]
  {
    forall j | 0 <= j < i
      ensures keys[j] != keys[i]
    {
      if keys[j] == keys[i] {
        SortedHasNoRepeats(keys, i, j);
      }
    }
  }

  lemma ReuseIsPlaced(st: State, peers: seq<Peer>, keys: seq<string>, i: nat, pool: Pool, peer: Peer)
    requires Owned(st) && i < |keys| && IsPeerFor(peers, keys[i], peer) && |st.pool| <= |pool| && pool[..|st.pool|] == st.pool
    requires keys[i] in st.entries && st.entries[keys[i]].peer == peer && st.entries[keys[i]].session < |pool|
    requires pool[st.entries[keys[i]].session].index == i + 1 && pool[st.entries[keys[i]].session].active
    ensures Placed(st, peers, keys, i, pool, st.entries[keys[i]])
  {
    var h := st.entries[keys[i]].session;
    assert pool[h] == pool[..|st.pool|][h];
  }

  lemma NewIsPlaced(st: State, peers: seq<Peer>, keys: seq<string>, i: nat, before: Pool, pool: Pool, peer: Peer, h: nat)
    requires Owned(st) && i < |keys| && IsPeerFor(peers, keys[i], peer)
    requires |st.pool| <= |before| && before[..|st.pool|] == st.pool
    requires !(keys[i] in st.entries && st.entries[keys[i]].peer == peer && st.entries[keys[i]].session < |before|
               && before[st.entries[keys[i]].session].index == i + 1 && before[st.entries[keys[i]].session].active)
    requires h == |before| && h < |pool| && pool[h] == SessionRecord(keys[i], i + 1, true, 0)
    ensures Placed(st, peers, keys, i, pool, Entry(peer, h))
  {
    if keys[i] in st.entries {
      var g := st.entries[keys[i]].session;
      assert before[g] == before[..|st.pool|][g];
    }
  }

  // -------------------------------------------------------- an unclosed session

  lemma OneKey(peer: Peer)
    ensures SortedKeys([peer]) == [peer.publicKey]
  {
    assert [peer][..0] == [];
  }

  /** A new manager needs a session for its only peer. */
  lemma OneIsNeeded(peer: Peer)
    ensures Needed(EMPTY, [peer], SortedKeys([peer]), |SortedKeys([peer])|) == 1
  {
    OneKey(peer);
    assert Needed(EMPTY, [peer], [peer.publicKey], 0) == 0;
    assert !CarriedOver(EMPTY, [peer], [peer.publicKey], 0);
  }

  /** A failing run that leaves something unclosed: the factory answers the first creation with an inactive session. */
  method InactiveSessionStaysUnclosed(peer: Peer) returns (manager: CryptoSessionManager, ok: bool)
    requires ValidPeers([peer]) && Accepted([peer])
    ensures !ok && manager.entries == map[]
    ensures |manager.pool| == 1 && !manager.pool[0].active && manager.pool[0].closes == 0
  {
    hide Accepted, Needed, SortedKeys;
    manager := new CryptoSessionManager();
    var factory: Factory := _ => Inactive;
    OneIsNeeded(peer);
    assert factory(0) == Inactive;
    ok := manager.ReconcileSessions([peer], factory);
    ghost var n :| 0 <= n && FailedAt(EMPTY, manager.Value(), factory, n);
    assert n == 0;
  }
}
