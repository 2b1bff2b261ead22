/** Session reconciliation: all-or-nothing replacement of the session map (crypto/CryptoSessionManagerImpl.kt). */
module Reconciliation {
  import opened Bytes
  import opened Text
  import opened Cidr
  import opened CryptokeyRouting

  /** A session object made by the factory; `closes` counts the calls of `close`. */
  datatype SessionRecord = SessionRecord(publicKey: string, index: nat, active: bool, closes: nat)

  /** Every session ever made, by handle. */
  type Pool = seq<SessionRecord>

  datatype Stats = Stats(received: nat, transmitted: nat)

  datatype State = State(pool: Pool, entries: map<string, Entry>, stats: map<string, Stats>)

  // ------------------------------------------------------------- acceptance

  /** `requireUserspacePeerEndpoints` and the endpoint resolution after it. */
  predicate EndpointsGiven(peers: seq<Peer>)
  {
    forall i :: 0 <= i < |peers| ==> peers[i].endpointAddress.Some? && peers[i].endpointPort.Some?
  }

  ghost predicate Accepted(peers: seq<Peer>)
    requires ValidPeers(peers)
  {
    UniquePublicKeys(peers) && EndpointsGiven(peers) && ExclusiveOwnership(peers)
  }

  // ------------------------------------------------------------ sorted keys

  predicate StrictlySorted(s: seq<string>)
  {
    forall i, j :: 0 <= i < j < |s| ==> Less(s[i], s[j])
  }

  function InsertKey(s: seq<string>, k: string): seq<string>
  {
    if s == [] then [k]
    else if Less(k, s[|s| - 1]) then InsertKey(s[..|s| - 1], k) + [s[|s| - 1]]
    else s + [k]
  }

  /** `desiredPeers.keys.sorted()` */
  function SortedKeys(peers: seq<Peer>): seq<string>
  {
    if peers == [] then [] else InsertKey(SortedKeys(peers[..|peers| - 1]), peers[|peers| - 1].publicKey)
  }

  lemma {:induction false} InsertKeySorts(s: seq<string>, k: string)
    requires StrictlySorted(s) && k !in s
    ensures StrictlySorted(InsertKey(s, k)) && |InsertKey(s, k)| == |s| + 1
    ensures forall x :: x in InsertKey(s, k) <==> x in s || x == k
  {
    hide Less;
    if s != [] {
      var init, last := s[..|s| - 1], s[|s| - 1];
      assert s == init + [last];
      if Less(k, last) {
        InsertKeySorts(init, k);
        var r := InsertKey(init, k);
        forall i | 0 <= i < |r|
          ensures Less(r[i], last)
        {
          assert r[i] in r;
        }
      } else {
        LessTotal(k, last);
        forall i | 0 <= i < |s|
          ensures Less(s[i], k)
        {
          if i < |s| - 1 {
            LessTransitive(s[i], last, k);
          }
        }
      }
    }
  }

  lemma {:induction false} SortedKeysAreTheKeys(peers: seq<Peer>)
    requires UniquePublicKeys(peers)
    ensures StrictlySorted(SortedKeys(peers)) && |SortedKeys(peers)| == |peers|
    ensures forall k :: k in SortedKeys(peers) <==> exists i :: 0 <= i < |peers| && peers[i].publicKey == k
  {
    hide Less;
    if peers != [] {
      var init, last := peers[..|peers| - 1], peers[|peers| - 1];
      SortedKeysAreTheKeys(init);
      InsertKeySorts(SortedKeys(init), last.publicKey);
      forall k
        ensures k in SortedKeys(peers) <==> exists i :: 0 <= i < |peers| && peers[i].publicKey == k
      {
        if k in SortedKeys(init) {
          var i :| 0 <= i < |init| && init[i].publicKey == k;
          assert peers[i].publicKey == k;
        }
        if exists i :: 0 <= i < |peers| && peers[i].publicKey == k {
          var i :| 0 <= i < |peers| && peers[i].publicKey == k;
          assert i < |init| ==> init[i].publicKey == k;
        }
      }
    }
  }

  lemma SortedHasNoRepeats(s: seq<string>, i: nat, j: nat)
    requires StrictlySorted(s) && i < |s| && j < |s| && s[i] == s[j]
    ensures i == j
  {
    LessTotal(s[i], s[i]);
  }

  /** `desiredPeers.getValue(key)` */
  ghost predicate IsPeerFor(peers: seq<Peer>, key: string, p: Peer)
  {
    p in peers && p.publicKey == key
  }

  // --------------------------------------------------------------- outcomes

  /** The reuse test: same peer, same index, still active. */
  predicate Reusable(st: State, key: string, peer: Peer, index: nat)
  {
    && key in st.entries && st.entries[key].peer == peer
    && st.entries[key].session < |st.pool|
    && st.pool[st.entries[key].session].index == index && st.pool[st.entries[key].session].active
  }

  function Closed(pool: Pool, handles: set<nat>): (p: Pool)
    ensures |p| == |pool|
  {
    seq(|pool|, h requires 0 <= h < |pool| => if h in handles then pool[h].(active := false, closes := pool[h].closes + 1) else pool[h])
  }

  function Handles(entries: map<string, Entry>): set<nat>
  {
    set k | k in entries :: entries[k].session
  }

  /** A call that throws: every session it made is closed, except a last one that the factory returned inactive;
      everything else is as before. */
  ghost predicate RolledBack(st: State, st': State)
  {
    && st'.entries == st.entries && st'.stats == st.stats
    && |st.pool| <= |st'.pool| && st'.pool[..|st.pool|] == st.pool
    && forall h :: |st.pool| <= h < |st'.pool| ==> !st'.pool[h].active && (st'.pool[h].closes == 1 || (st'.pool[h].closes == 0 && h == |st'.pool| - 1))
  }

  /** Entry number `i` of the new map. */
  ghost predicate Placed(st: State, peers: seq<Peer>, keys: seq<string>, i: nat, pool: Pool, e: Entry)
    requires i < |keys|
  {
    && IsPeerFor(peers, keys[i], e.peer)
    && (if Reusable(st, keys[i], e.peer, i + 1) then e == st.entries[keys[i]]
        else |st.pool| <= e.session < |pool| && pool[e.session] == SessionRecord(keys[i], i + 1, true, 0))
  }

  /** The handles of old entries that were not carried over. */
  ghost predicate IsReplaced(st: State, next: map<string, Entry>, h: nat)
  {
    exists k :: k in st.entries && st.entries[k].session == h && !(k in next && next[k] == st.entries[k])
  }

  /** A call that succeeds: the sorted keys get the indexes 1..n, each entry is reused or new, the replaced sessions
      and only they are closed once, and the statistics of removed peers are dropped. */
  ghost predicate Replaced(st: State, peers: seq<Peer>, st': State)
  {
    var keys := SortedKeys(peers);
    && (forall k :: k in st'.entries <==> k in keys)
    && (forall i :: 0 <= i < |keys| ==> Placed(st, peers, keys, i, st'.pool, st'.entries[keys[i]]))
    && |st.pool| <= |st'.pool|
    && (forall h :: 0 <= h < |st.pool| ==> st'.pool[h] == (if IsReplaced(st, st'.entries, h) then Closed(st.pool, {h})[h] else st.pool[h]))
    && (forall h :: |st.pool| <= h < |st'.pool| ==> h in Handles(st'.entries))
    && st'.stats == st.stats - (st.entries.Keys - st'.entries.Keys)
  }

  ghost predicate Reconciled(st: State, peers: seq<Peer>, st': State, ok: bool)
    requires ValidPeers(peers)
  {
    if ok then Accepted(peers) && Replaced(st, peers, st')
    else RolledBack(st, st') && (!Accepted(peers) ==> st' == st)
  }

  /** `stop` */
  ghost predicate Stopped(st: State, st': State)
  {
    st' == State(Closed(st.pool, Handles(st.entries)), map[], map[])
  }

  // -------------------------------------------------------------- invariant

  /** The map owns its sessions: each under its own key and unclosed; no other session is active; nothing is closed twice. */
  ghost predicate Owned(st: State)
  {
    && (forall k :: k in st.entries ==>
          && st.entries[k].peer.publicKey == k
          && st.entries[k].session < |st.pool|
          && st.pool[st.entries[k].session].publicKey == k
          && st.pool[st.entries[k].session].closes == 0)
    && (forall h :: 0 <= h < |st.pool| && st.pool[h].active ==> h in Handles(st.entries))
    && (forall h :: 0 <= h < |st.pool| ==> st.pool[h].closes <= 1)
    && (forall k :: k in st.stats ==> k in st.entries)
  }

  /** Every session of the map is active: what a successful call establishes. */
  ghost predicate AllActive(st: State)
  {
    forall k :: k in st.entries ==> st.entries[k].session < |st.pool| && st.pool[st.entries[k].session].active
  }

  lemma RollbackKeepsOwned(st: State, st': State)
    requires Owned(st) && RolledBack(st, st')
    ensures Owned(st')
    ensures forall h :: 0 <= h < |st'.pool| && st'.pool[h].active <==> 0 <= h < |st.pool| && st.pool[h].active
  {
    assert forall h :: 0 <= h < |st.pool| ==> st'.pool[h] == st'.pool[..|st.pool|][h];
  }

  lemma StopKeepsOwned(st: State, st': State)
    requires Owned(st) && Stopped(st, st')
    ensures Owned(st') && forall h :: 0 <= h < |st'.pool| ==> !st'.pool[h].active
  {
    forall h | 0 <= h < |st.pool|
      ensures !st'.pool[h].active && st'.pool[h].closes <= 1
    {
      if h in Handles(st.entries) {
        var k :| k in st.entries && st.entries[k].session == h;
      }
    }
  }

  /** An old session is replaced exactly when its own entry is not carried over. */
  lemma ReplacedByOwnKey(st: State, next: map<string, Entry>, k: string)
    requires Owned(st) && k in st.entries
    ensures IsReplaced(st, next, st.entries[k].session) <==> !(k in next && next[k] == st.entries[k])
  {
    if IsReplaced(st, next, st.entries[k].session) {
      var o :| o in st.entries && st.entries[o].session == st.entries[k].session && !(o in next && next[o] == st.entries[o]);
      assert st.pool[st.entries[o].session].publicKey == o;
    }
  }

  /** Each entry of the new map owns an active, unclosed session with the index of its key. */
  lemma NewEntry(st: State, peers: seq<Peer>, st': State, i: nat)
    requires Owned(st) && UniquePublicKeys(peers) && Replaced(st, peers, st') && i < |SortedKeys(peers)|
    ensures var k := SortedKeys(peers)[i];
            && k in st'.entries && st'.entries[k].peer.publicKey == k && st'.entries[k].session < |st'.pool|
            && st'.pool[st'.entries[k].session] == SessionRecord(k, i + 1, true, 0)
  {
    var k := SortedKeys(peers)[i];
    var e := st'.entries[k];
    assert Placed(st, peers, SortedKeys(peers), i, st'.pool, e);
    if Reusable(st, k, e.peer, i + 1) {
      ReplacedByOwnKey(st, st'.entries, k);
    }
  }

  lemma NewEntryByKey(st: State, peers: seq<Peer>, st': State, k: string) returns (i: nat)
    requires Owned(st) && UniquePublicKeys(peers) && Replaced(st, peers, st') && k in st'.entries
    ensures i < |SortedKeys(peers)| && SortedKeys(peers)[i] == k
    ensures st'.entries[k].peer.publicKey == k && st'.entries[k].session < |st'.pool|
    ensures st'.pool[st'.entries[k].session] == SessionRecord(k, i + 1, true, 0)
  {
    var keys := SortedKeys(peers);
    assert k in keys;
    i :| 0 <= i < |keys| && keys[i] == k;
    NewEntry(st, peers, st', i);
  }

  /** Success: the map owns its sessions again, all of them active, and no session outside the map is. */
  lemma ReplacementKeepsOwned(st: State, peers: seq<Peer>, st': State)
    requires Owned(st) && UniquePublicKeys(peers) && Replaced(st, peers, st')
    ensures Owned(st') && AllActive(st')
  {
    hide SortedKeys;
    forall k | k in st'.entries
      ensures && st'.entries[k].peer.publicKey == k && st'.entries[k].session < |st'.pool|
              && st'.pool[st'.entries[k].session].publicKey == k && st'.pool[st'.entries[k].session].closes == 0
              && st'.pool[st'.entries[k].session].active
    {
      var i := NewEntryByKey(st, peers, st', k);
    }
    forall h | 0 <= h < |st'.pool|
      ensures st'.pool[h].active ==> h in Handles(st'.entries)
      ensures st'.pool[h].closes <= 1
    {
      if h < |st.pool| {
        OldSessionAfter(st, peers, st', h);
      } else {
        assert h in Handles(st'.entries);
        var k :| k in st'.entries && st'.entries[k].session == h;
        var i := NewEntryByKey(st, peers, st', k);
      }
    }
  }

  lemma OldSessionAfter(st: State, peers: seq<Peer>, st': State, h: nat)
    requires Owned(st) && Replaced(st, peers, st') && h < |st.pool|
    ensures st'.pool[h].active ==> h in Handles(st'.entries)
    ensures st'.pool[h].closes <= 1
  {
    hide SortedKeys, Placed;
    if IsReplaced(st, st'.entries, h) {
      var k :| k in st.entries && st.entries[k].session == h && !(k in st'.entries && st'.entries[k] == st.entries[k]);
    } else if st.pool[h].active {
      assert h in Handles(st.entries);
      var k :| k in st.entries && st.entries[k].session == h;
      assert k in st'.entries && st'.entries[k] == st.entries[k];
    }
  }

  /** Each old session that is not reused is closed exactly once by the call; a reused one is not touched. */
  lemma ReplacedAreClosedOnce(st: State, peers: seq<Peer>, st': State, k: string)
    requires Owned(st) && Replaced(st, peers, st') && k in st.entries
    ensures var h := st.entries[k].session;
            if k in st'.entries && st'.entries[k] == st.entries[k] then st'.pool[h] == st.pool[h]
            else st'.pool[h].closes == 1 && !st'.pool[h].active
  {
    ReplacedByOwnKey(st, st'.entries, k);
  }

  /** The indexes of the sessions in the map are 1..n, each once, in key order. */
  lemma IndexesAreBijective(st: State, peers: seq<Peer>, st': State)
    requires Owned(st) && UniquePublicKeys(peers) && Replaced(st, peers, st')
    ensures |SortedKeys(peers)| == |peers| && StrictlySorted(SortedKeys(peers))
    ensures forall i :: 0 <= i < |peers| ==>
              SortedKeys(peers)[i] in st'.entries && st'.entries[SortedKeys(peers)[i]].session < |st'.pool|
              && st'.pool[st'.entries[SortedKeys(peers)[i]].session].index == i + 1
    ensures forall k :: k in st'.entries ==> exists i :: 0 <= i < |peers| && SortedKeys(peers)[i] == k
  {
    hide Replaced, Less, SortedKeys;
    SortedKeysAreTheKeys(peers);
    forall i | 0 <= i < |peers|
      ensures SortedKeys(peers)[i] in st'.entries && st'.entries[SortedKeys(peers)[i]].session < |st'.pool|
              && st'.pool[st'.entries[SortedKeys(peers)[i]].session].index == i + 1
    {
      NewEntry(st, peers, st', i);
    }
    forall k | k in st'.entries
      ensures exists i :: 0 <= i < |peers| && SortedKeys(peers)[i] == k
    {
      var i := NewEntryByKey(st, peers, st', k);
    }
  }

  /** A successful call keeps the statistics of the peers that stay and drops those of the peers that go. */
  lemma StatisticsFollowPeers(st: State, peers: seq<Peer>, st': State, k: string)
    requires Owned(st) && Replaced(st, peers, st')
    ensures k in st'.stats <==> k in st.stats && k in st'.entries
    ensures k in st'.stats ==> st'.stats[k] == st.stats[k]
  {
    hide Placed, Reusable, IsReplaced;
  }

  // ------------------------------------------------------------------- runs

  /** A session gives up on its own. */
  ghost predicate Died(st: State, st': State)
  {
    exists h :: 0 <= h < |st.pool| && st' == st.(pool := st.pool[h := st.pool[h].(active := false)])
  }

  datatype Call = Reconcile(peers: seq<Peer>, ok: bool) | Stop | Death

  ghost predicate Next(st: State, call: Call, st': State)
  {
    match call
    case Reconcile(peers, ok) => ValidPeers(peers) && Reconciled(st, peers, st', ok)
    case Stop => Stopped(st, st')
    case Death => Died(st, st')
  }

  const EMPTY := State([], map[], map[])

  lemma NextKeepsOwned(st: State, call: Call, st': State)
    requires Owned(st) && Next(st, call, st')
    ensures Owned(st')
  {
    hide Owned, Replaced, RolledBack, Stopped, ExclusiveOwnership;
    match call
    case Reconcile(peers, ok) =>
      if ok {
        ReplacementKeepsOwned(st, peers, st');
      } else {
        RollbackKeepsOwned(st, st');
      }
    case Stop => StopKeepsOwned(st, st');
    case Death => DeathKeepsOwned(st, st');
  }

  lemma DeathKeepsOwned(st: State, st': State)
    requires Owned(st) && Died(st, st')
    ensures Owned(st')
  {}

  /** Over any sequence of calls, with a factory that may fail anywhere: active sessions are in the map, sessions in
      the map are unclosed, and none is ever closed twice. */
  lemma {:induction false} EveryRunKeepsOwned(states: seq<State>, calls: seq<Call>, n: nat)
    requires |states| == |calls| + 1 && states[0] == EMPTY && n < |states|
    requires forall i :: 0 <= i < |calls| ==> Next(states[i], calls[i], states[i + 1])
    ensures Owned(states[n])
  {
    hide Next;
    if n > 0 {
      hide Owned;
      EveryRunKeepsOwned(states, calls, n - 1);
      NextKeepsOwned(states[n - 1], calls[n - 1], states[n]);
    }
  }

  /** Without sessions that die on their own, the active sessions are exactly those in the map. */
  lemma {:induction false} ActiveAreExactlyTheMap(states: seq<State>, calls: seq<Call>, n: nat)
    requires |states| == |calls| + 1 && states[0] == EMPTY && n < |states|
    requires forall i :: 0 <= i < |calls| ==> Next(states[i], calls[i], states[i + 1]) && calls[i] != Death
    ensures AllActive(states[n])
    ensures forall h :: h in Handles(states[n].entries) <==> 0 <= h < |states[n].pool| && states[n].pool[h].active
  {
    hide Next, Owned, AllActive, Handles;
    EveryRunKeepsOwned(states, calls, n);
    if n == 0 {
      EmptyIsActive();
    } else {
      ActiveAreExactlyTheMap(states, calls, n - 1);
      EveryRunKeepsOwned(states, calls, n - 1);
      NextKeepsActive(states[n - 1], calls[n - 1], states[n]);
    }
    OwnedAndActive(states[n]);
  }

  lemma EmptyIsActive()
    ensures AllActive(EMPTY)
  {}

  lemma OwnedAndActive(st: State)
    requires Owned(st) && AllActive(st)
    ensures forall h :: h in Handles(st.entries) <==> 0 <= h < |st.pool| && st.pool[h].active
  {}

  lemma NextKeepsActive(st: State, call: Call, st': State)
    requires Owned(st) && AllActive(st) && Next(st, call, st') && call != Death
    ensures AllActive(st')
  {
    hide Owned, Replaced, ExclusiveOwnership;
    match call
    case Reconcile(peers, ok) =>
      if ok {
        ReplacementKeepsOwned(st, peers, st');
      } else {
        assert forall h :: 0 <= h < |st.pool| ==> st'.pool[h] == st'.pool[..|st.pool|][h];
      }
    case Stop =>
  }

  /** After a successful call the entries, in any order, are what peer selection needs to be order-independent. */
  lemma SelectionIsReady(st: State, peers: seq<Peer>, st': State, order: seq<Entry>)
    requires ValidPeers(peers) && Owned(st) && Reconciled(st, peers, st', true)
    requires forall m :: 0 <= m < |order| ==> order[m].peer.publicKey in st'.entries && st'.entries[order[m].peer.publicKey] == order[m]
    requires forall m, n :: 0 <= m < n < |order| ==> order[m].peer.publicKey != order[n].peer.publicKey
    ensures ValidEntries(order) && Validated(order)
  {
    hide Validated, ExclusiveOwnership, Owned, ValidCidr;
    forall m | 0 <= m < |order|
      ensures order[m].peer in peers
    {
      var i := NewEntryByKey(st, peers, st', order[m].peer.publicKey);
      assert Placed(st, peers, SortedKeys(peers), i, st'.pool, order[m]);
    }
    AcceptedPeersAreValidated(peers, order);
  }

  // ------------------------------------------------------- selection in runs

  /** `order` lists the entries of the map, each once. */
  predicate Listing(entries: map<string, Entry>, order: seq<Entry>)
  {
    && (forall m :: 0 <= m < |order| ==> order[m].peer.publicKey in entries && entries[order[m].peer.publicKey] == order[m])
    && (forall m, n :: 0 <= m < n < |order| ==> order[m].peer.publicKey != order[n].peer.publicKey)
    && (forall k :: k in entries ==> entries[k] in order)
  }

  ghost predicate FromPeers(entries: map<string, Entry>, peers: seq<Peer>)
  {
    forall k :: k in entries ==> entries[k].peer in peers && entries[k].peer.publicKey == k
  }

  /** The entries serve peers of one accepted configuration. */
  ghost predicate Routable(st: State)
  {
    exists peers :: ValidPeers(peers) && Accepted(peers) && FromPeers(st.entries, peers)
  }

  lemma NoEntriesAreRoutable(st: State)
    requires st.entries == map[]
    ensures Routable(st)
  {
    assert ValidPeers([]) && Accepted([]) && FromPeers(st.entries, []);
  }

  lemma ReplacementIsRoutable(st: State, peers: seq<Peer>, st': State)
    requires Owned(st) && ValidPeers(peers) && Accepted(peers) && Replaced(st, peers, st')
    ensures Routable(st')
  {
    hide Accepted, Owned, Replaced;
    forall k | k in st'.entries
      ensures st'.entries[k].peer in peers && st'.entries[k].peer.publicKey == k
    {
      ReplacedEntry(st, peers, st', k);
    }
    assert FromPeers(st'.entries, peers);
  }

  lemma ReplacedEntry(st: State, peers: seq<Peer>, st': State, k: string)
    requires Owned(st) && ValidPeers(peers) && Accepted(peers) && Replaced(st, peers, st') && k in st'.entries
    ensures st'.entries[k].peer in peers && st'.entries[k].peer.publicKey == k
  {
    hide ExclusiveOwnership, Owned, ValidCidr, Reusable;
    var i := NewEntryByKey(st, peers, st', k);
    assert Placed(st, peers, SortedKeys(peers), i, st'.pool, st'.entries[k]);
  }

  /** Failing calls and deaths keep the entries, a successful call replaces them by those of accepted peers. */
  lemma NextKeepsRoutable(st: State, call: Call, st': State)
    requires Owned(st) && Routable(st) && Next(st, call, st')
    ensures Routable(st')
  {
    hide Owned, Replaced, Accepted, ValidPeers, FromPeers, Closed;
    match call
    case Reconcile(peers, ok) =>
      if ok {
        ReplacementIsRoutable(st, peers, st');
      }
    case Stop =>
      NoEntriesAreRoutable(st');
    case Death =>
  }

  lemma {:induction false} EveryRunIsRoutable(states: seq<State>, calls: seq<Call>, n: nat)
    requires |states| == |calls| + 1 && states[0] == EMPTY && n < |states|
    requires forall i :: 0 <= i < |calls| ==> Next(states[i], calls[i], states[i + 1])
    ensures Routable(states[n])
  {
    hide Next, Owned, Routable;
    if n == 0 {
      NoEntriesAreRoutable(states[0]);
    } else {
      EveryRunIsRoutable(states, calls, n - 1);
      EveryRunKeepsOwned(states, calls, n - 1);
      NextKeepsRoutable(states[n - 1], calls[n - 1], states[n]);
    }
  }

  lemma RoutableIsValidated(st: State, order: seq<Entry>)
    requires Routable(st) && Listing(st.entries, order)
    ensures ValidEntries(order) && Validated(order)
  {
    hide Validated, ExclusiveOwnership, ValidCidr;
    var peers :| ValidPeers(peers) && Accepted(peers) && FromPeers(st.entries, peers);
    assert forall m :: 0 <= m < |order| ==> order[m].peer in peers;
    AcceptedPeersAreValidated(peers, order);
  }

  /** In every state of every run, whatever failed before, all iteration orders of the map select the same session. */
  lemma SelectionInEveryRun(states: seq<State>, calls: seq<Call>, n: nat, packet: Bytes, order: seq<Entry>, other: seq<Entry>)
    requires |states| == |calls| + 1 && states[0] == EMPTY && n < |states|
    requires forall i :: 0 <= i < |calls| ==> Next(states[i], calls[i], states[i + 1])
    requires Listing(states[n].entries, order) && Listing(states[n].entries, other)
    ensures ValidEntries(order) && Validated(order) && ValidEntries(other)
    ensures SelectSession(packet, order) == SelectSession(packet, other)
  {
    hide Next, Routable, Validated, SelectSession, ValidEntries;
    EveryRunIsRoutable(states, calls, n);
    RoutableIsValidated(states[n], order);
    SelectionByMembers(packet, order, other);
  }
}
