/** Allowed-IP ownership (VpnValidation.kt) and peer selection (CryptoSessionManagerImpl.kt). */
module CryptokeyRouting {
  import opened Bytes
  import opened Results
  import opened Cidr

  datatype Peer = Peer(
    endpointPort: Option<int>,
    endpointAddress: Option<Ip>,
    endpointHost: Option<string>,
    publicKey: string,
    allowedIps: seq<Cidr>,
    persistentKeepalive: Option<int>,
    presharedKey: Option<string>)

  /** Every allowed IP came out of `String.toCidr`. */
  predicate ValidPeer(p: Peer)
  {
    forall a :: 0 <= a < |p.allowedIps| ==> ValidCidr(p.allowedIps[a])
  }

  predicate ValidPeers(peers: seq<Peer>)
  {
    forall i :: 0 <= i < |peers| ==> ValidPeer(peers[i])
  }

  // ------------------------------------------------------------ unique keys

  predicate UniquePublicKeys(peers: seq<Peer>)
  {
    forall i, j :: 0 <= i < j < |peers| ==> peers[i].publicKey != peers[j].publicKey
  }

  /** `groupingBy(publicKey).eachCount()` at one key. */
  function KeyCount(peers: seq<Peer>, key: string): nat
  {
    if peers == [] then 0
    else KeyCount(peers[..|peers| - 1], key) + (if peers[|peers| - 1].publicKey == key then 1 else 0)
  }

  function DuplicatedKeys(peers: seq<Peer>): set<string>
  {
    set p | p in peers && KeyCount(peers, p.publicKey) > 1 :: p.publicKey
  }

  lemma {:induction false} KeyCountPositive(peers: seq<Peer>, key: string)
    ensures KeyCount(peers, key) > 0 <==> exists i: nat :: HasKey(peers, i, key)
  {
    if peers != [] {
      var n := |peers| - 1;
      KeyCountPositive(peers[..n], key);
      assert forall i: nat :: i < n ==> (HasKey(peers[..n], i, key) <==> HasKey(peers, i, key));
      assert peers[n].publicKey == key <==> HasKey(peers, n, key);
    }
  }

  predicate HasKey(peers: seq<Peer>, i: nat, key: string)
  {
    i < |peers| && peers[i].publicKey == key
  }

  /** A count above one comes from two peers with the key, and the other way round. */
  lemma {:induction false} TwoPeersCount(peers: seq<Peer>, key: string, i: nat, j: nat)
    requires i < j && HasKey(peers, i, key) && HasKey(peers, j, key)
    ensures KeyCount(peers, key) > 1
    decreases |peers|
  {
    var n := |peers| - 1;
    if j < n {
      TwoPeersCount(peers[..n], key, i, j);
    } else {
      KeyCountPositive(peers[..n], key);
      assert HasKey(peers[..n], i, key);
    }
  }

  lemma {:induction false} TwoPeersOf(peers: seq<Peer>, key: string) returns (i: nat, j: nat)
    requires KeyCount(peers, key) > 1
    ensures i < j && HasKey(peers, i, key) && HasKey(peers, j, key)
    decreases |peers|
  {
    var n := |peers| - 1;
    if KeyCount(peers[..n], key) > 1 {
      i, j := TwoPeersOf(peers[..n], key);
    } else {
      KeyCountPositive(peers[..n], key);
      i :| HasKey(peers[..n], i, key);
      j := n;
    }
  }

  /** `requireUniqueParsedPeerPublicKeys` accepts exactly the lists without repeated keys. */
  lemma NoDuplicatedKeysIsUnique(peers: seq<Peer>)
    ensures DuplicatedKeys(peers) == {} <==> UniquePublicKeys(peers)
  {
    if !UniquePublicKeys(peers) {
      var i, j :| 0 <= i < j < |peers| && peers[i].publicKey == peers[j].publicKey;
      assert HasKey(peers, i, peers[i].publicKey) && HasKey(peers, j, peers[i].publicKey);
      TwoPeersCount(peers, peers[i].publicKey, i, j);
      assert peers[i].publicKey in DuplicatedKeys(peers);
    }
    if DuplicatedKeys(peers) != {} {
      var k :| k in DuplicatedKeys(peers);
      var i, j := TwoPeersOf(peers, k);
    }
  }

  // -------------------------------------------------------------- ownership

  /** No two peers own blocks that cover the same destinations. */
  ghost predicate ExclusiveOwnership(peers: seq<Peer>)
    requires ValidPeers(peers)
  {
    forall i, j, a, b ::
      && 0 <= i < |peers| && 0 <= j < |peers|
      && 0 <= a < |peers[i].allowedIps| && 0 <= b < |peers[j].allowedIps|
      && SameDestinations(peers[i].allowedIps[a], peers[j].allowedIps[b])
      ==> peers[i].publicKey == peers[j].publicKey
  }

  datatype Claim = Claim(key: string, owner: string)

  function PeerClaims(p: Peer): (claims: seq<Claim>)
    requires ValidPeer(p)
    ensures |claims| == |p.allowedIps|
  {
    seq(|p.allowedIps|, a requires 0 <= a < |p.allowedIps| => Claim(KeyText(p.allowedIps[a]), p.publicKey))
  }

  function Claims(peers: seq<Peer>): seq<Claim>
    requires ValidPeers(peers)
  {
    if peers == [] then [] else Claims(peers[..|peers| - 1]) + PeerClaims(peers[|peers| - 1])
  }

  predicate Consistent(claims: seq<Claim>)
  {
    forall m, n :: 0 <= m < |claims| && 0 <= n < |claims| && claims[m].key == claims[n].key ==> claims[m].owner == claims[n].owner
  }

  lemma {:induction false} ClaimsHave(peers: seq<Peer>, i: nat, a: nat)
    requires ValidPeers(peers) && i < |peers| && a < |peers[i].allowedIps|
    ensures Claim(KeyText(peers[i].allowedIps[a]), peers[i].publicKey) in Claims(peers)
  {
    if i < |peers| - 1 {
      ClaimsHave(peers[..|peers| - 1], i, a);
    } else {
      assert PeerClaims(peers[i])[a] in PeerClaims(peers[i]);
    }
  }

  lemma {:induction false} ClaimsComeFrom(peers: seq<Peer>, c: Claim) returns (i: nat, a: nat)
    requires ValidPeers(peers) && c in Claims(peers)
    ensures i < |peers| && a < |peers[i].allowedIps|
    ensures c == Claim(KeyText(peers[i].allowedIps[a]), peers[i].publicKey)
  {
    var n := |peers| - 1;
    if c in Claims(peers[..n]) {
      i, a := ClaimsComeFrom(peers[..n], c);
    } else {
      i := n;
      a :| 0 <= a < |PeerClaims(peers[n])| && PeerClaims(peers[n])[a] == c;
    }
  }

  /** Keys decide ownership because the key is canonical. */
  lemma ConsistentIsExclusive(peers: seq<Peer>)
    requires ValidPeers(peers)
    ensures Consistent(Claims(peers)) <==> ExclusiveOwnership(peers)
  {
    if Consistent(Claims(peers)) {
      forall i, j, a, b |
        && 0 <= i < |peers| && 0 <= j < |peers|
        && 0 <= a < |peers[i].allowedIps| && 0 <= b < |peers[j].allowedIps|
        && SameDestinations(peers[i].allowedIps[a], peers[j].allowedIps[b])
        ensures peers[i].publicKey == peers[j].publicKey
      {
        KeyIsCanonical(peers[i].allowedIps[a], peers[j].allowedIps[b]);
        ClaimsHave(peers, i, a);
        ClaimsHave(peers, j, b);
      }
    }
    if ExclusiveOwnership(peers) {
      var claims := Claims(peers);
      forall m, n | 0 <= m < |claims| && 0 <= n < |claims| && claims[m].key == claims[n].key
        ensures claims[m].owner == claims[n].owner
      {
        var i, a := ClaimsComeFrom(peers, claims[m]);
        var j, b := ClaimsComeFrom(peers, claims[n]);
        KeyIsCanonical(peers[i].allowedIps[a], peers[j].allowedIps[b]);
      }
    }
  }

  /** The map after the claims so far: every claim is recorded, and nothing else. */
  ghost predicate Records(seen: map<string, string>, claims: seq<Claim>)
  {
    && (forall m :: 0 <= m < |claims| ==> claims[m].key in seen && seen[claims[m].key] == claims[m].owner)
    && (forall k :: k in seen ==> Claim(k, seen[k]) in claims)
  }

  lemma {:induction false} ClaimsPrefix(peers: seq<Peer>, i: nat)
    requires ValidPeers(peers) && i <= |peers|
    ensures forall c :: c in Claims(peers[..i]) ==> c in Claims(peers)
    decreases |peers| - i
  {
    if i < |peers| {
      ClaimsPrefix(peers, i + 1);
      assert peers[..i + 1][..i] == peers[..i];
    } else {
      assert peers[..i] == peers;
    }
  }

  /** A recorded claim with another owner for the same key refutes exclusive ownership. */
  lemma ConflictRefutesOwnership(peers: seq<Peer>, i: nat, a: nat, recorded: Claim)
    requires ValidPeers(peers) && i < |peers| && a < |peers[i].allowedIps|
    requires recorded in Claims(peers[..i]) + PeerClaims(peers[i])
    requires recorded.key == KeyText(peers[i].allowedIps[a]) && recorded.owner != peers[i].publicKey
    ensures !ExclusiveOwnership(peers)
  {
    hide KeyText, ExclusiveOwnership;
    assert peers[..i + 1][..i] == peers[..i];
    assert Claims(peers[..i + 1]) == Claims(peers[..i]) + PeerClaims(peers[i]);
    ClaimsPrefix(peers, i + 1);
    ClaimsHave(peers, i, a);
    ConsistentIsExclusive(peers);
    var mine, all := Claim(recorded.key, peers[i].publicKey), Claims(peers);
    var m :| 0 <= m < |all| && all[m] == mine;
    var n :| 0 <= n < |all| && all[n] == recorded;
    assert !Consistent(all);
  }

  lemma RecordsSnoc(seen: map<string, string>, claims: seq<Claim>, c: Claim)
    requires Records(seen, claims) && (c.key in seen ==> seen[c.key] == c.owner)
    ensures Records(seen[c.key := c.owner], claims + [c])
  {}

  lemma RecordsAreConsistent(seen: map<string, string>, claims: seq<Claim>)
    requires Records(seen, claims)
    ensures Consistent(claims)
  {}

  /** `requireDistinctAllowedIpOwnership`: accepts exactly the configurations with exclusive ownership. */
  method RequireDistinctAllowedIpOwnership(peers: seq<Peer>) returns (ok: bool)
    requires ValidPeers(peers)
    ensures ok <==> ExclusiveOwnership(peers)
  {
    hide KeyText, ExclusiveOwnership, Records, Consistent;
    var seen: map<string, string> := map[];
    EmptyRecords();
    for i := 0 to |peers|
      invariant Records(seen, Claims(peers[..i]))
    {
      var peer := peers[i];
      ghost var before, mine := Claims(peers[..i]), PeerClaims(peer);
      assert before + mine[..0] == before;
      for a := 0 to |peer.allowedIps|
        invariant Records(seen, before + mine[..a])
      {
        var present, key := NormalizedKey(peer.allowedIps[a]);
        assert mine[a] == Claim(key, peer.publicKey);
        if key in seen && seen[key] != peer.publicKey {
          RecordedIsClaimed(seen, before + mine[..a], key);
          ConflictRefutesOwnership(peers, i, a, Claim(key, seen[key]));
          return false;
        }
        RecordsSnoc(seen, before + mine[..a], mine[a]);
        assert before + mine[..a + 1] == before + mine[..a] + [mine[a]];
        seen := seen[key := peer.publicKey];
      }
      assert mine[..|mine|] == mine && peers[..i + 1][..i] == peers[..i];
    }
    assert peers[..|peers|] == peers;
    RecordsAreConsistent(seen, Claims(peers));
    ConsistentIsExclusive(peers);
    ok := true;
  }

  lemma EmptyRecords()
    ensures Records(map[], [])
  {}

  lemma RecordedIsClaimed(seen: map<string, string>, claims: seq<Claim>, key: string)
    requires Records(seen, claims) && key in seen
    ensures Claim(key, seen[key]) in claims
  {}

  // -------------------------------------------------------------- selection

  /** `allowedIps.filter { matches }.maxByOrNull { prefix }`: the first of the longest. */
  function BestMatch(allowed: seq<Cidr>, d: Ip): Option<Cidr>
    requires forall a :: 0 <= a < |allowed| ==> ValidCidr(allowed[a])
    requires ValidIp(d)
  {
    if allowed == [] then None
    else
      var earlier := BestMatch(allowed[..|allowed| - 1], d);
      var last := allowed[|allowed| - 1];
      if Matches(last, d) && (earlier.None? || earlier.value.prefix < last.prefix) then Some(last) else earlier
  }

  lemma {:induction false} BestMatchIsLongest(allowed: seq<Cidr>, d: Ip)
    requires forall a :: 0 <= a < |allowed| ==> ValidCidr(allowed[a])
    requires ValidIp(d)
    ensures BestMatch(allowed, d).Some? ==> BestMatch(allowed, d).value in allowed && ValidCidr(BestMatch(allowed, d).value) && Matches(BestMatch(allowed, d).value, d)
    ensures forall a :: 0 <= a < |allowed| && Matches(allowed[a], d)
                        ==> BestMatch(allowed, d).Some? && allowed[a].prefix <= BestMatch(allowed, d).value.prefix
  {
    if allowed != [] {
      var init := allowed[..|allowed| - 1];
      BestMatchIsLongest(init, d);
      forall a | 0 <= a < |allowed| && Matches(allowed[a], d)
        ensures BestMatch(allowed, d).Some? && allowed[a].prefix <= BestMatch(allowed, d).value.prefix
      {
        if a < |init| {
          assert init[a] == allowed[a];
        }
      }
    }
  }

  /** A session entry: the peer it serves and the handle of its session object. */
  datatype Entry = Entry(peer: Peer, session: nat)

  predicate ValidEntries(entries: seq<Entry>)
  {
    forall e :: 0 <= e < |entries| ==> ValidPeer(entries[e].peer)
  }

  datatype Candidate = Candidate(entry: Entry, route: Cidr)

  /** The entries with a match, in order, reduced with `maxByOrNull { route.prefix }`. */
  function BestCandidate(entries: seq<Entry>, d: Ip): Option<Candidate>
    requires ValidEntries(entries) && ValidIp(d)
  {
    if entries == [] then None
    else
      var earlier := BestCandidate(entries[..|entries| - 1], d);
      var entry := entries[|entries| - 1];
      var route := BestMatch(entry.peer.allowedIps, d);
      if route.Some? && (earlier.None? || earlier.value.route.prefix < route.value.prefix) then Some(Candidate(entry, route.value))
      else earlier
  }

  /** `selectSessionForPacket` over the sessions in some iteration order. */
  function SelectSession(packet: Bytes, entries: seq<Entry>): Option<Entry>
    requires ValidEntries(entries)
  {
    var d := PacketDestination(packet);
    if d.None? then None
    else
      var best := BestCandidate(entries, d.value);
      if best.None? then None else Some(best.value.entry)
  }

  /** `c` is a block of `e` that matches `d`. */
  predicate Covers(e: Entry, c: Cidr, d: Ip)
    requires ValidPeer(e.peer) && ValidIp(d)
  {
    c in e.peer.allowedIps && Matches(c, d)
  }

  /** The longest match: no entry has a longer matching block. */
  ghost predicate OwnsLongest(entries: seq<Entry>, d: Ip, e: Entry, c: Cidr)
    requires ValidEntries(entries) && ValidIp(d)
  {
    && e in entries
    && Covers(e, c, d)
    && forall f, b :: f in entries && Covers(f, b, d) ==> b.prefix <= c.prefix
  }

  lemma {:induction false} BestCandidateIsLongest(entries: seq<Entry>, d: Ip)
    requires ValidEntries(entries) && ValidIp(d)
    ensures BestCandidate(entries, d).Some? ==> OwnsLongest(entries, d, BestCandidate(entries, d).value.entry, BestCandidate(entries, d).value.route)
    ensures BestCandidate(entries, d).None? ==> forall f, b :: f in entries ==> !Covers(f, b, d)
  {
    hide Matches, ValidCidr, ValidIp, BestMatch;
    if entries != [] {
      var init, last := entries[..|entries| - 1], entries[|entries| - 1];
      BestCandidateIsLongest(init, d);
      BestMatchIsLongest(last.peer.allowedIps, d);
      forall f, b | f in entries && Covers(f, b, d)
        ensures BestCandidate(entries, d).Some? && b.prefix <= BestCandidate(entries, d).value.route.prefix
      {
        if f == last {
          var a :| 0 <= a < |f.peer.allowedIps| && f.peer.allowedIps[a] == b;
        } else {
          assert f in init;
        }
      }
    }
  }

  /** What the validated session map guarantees: one entry per public key, blocks owned exclusively. */
  ghost predicate Validated(entries: seq<Entry>)
    requires ValidEntries(entries)
  {
    && (forall m, n :: 0 <= m < |entries| && 0 <= n < |entries| && entries[m].peer.publicKey == entries[n].peer.publicKey ==> entries[m] == entries[n])
    && (forall m, n, a, b ::
          && 0 <= m < |entries| && 0 <= n < |entries|
          && 0 <= a < |entries[m].peer.allowedIps| && 0 <= b < |entries[n].peer.allowedIps|
          && SameDestinations(entries[m].peer.allowedIps[a], entries[n].peer.allowedIps[b])
          ==> entries[m].peer.publicKey == entries[n].peer.publicKey)
  }

  /** Entries for peers of one accepted configuration, one per public key, are validated. */
  lemma AcceptedPeersAreValidated(peers: seq<Peer>, entries: seq<Entry>)
    requires ValidPeers(peers) && ExclusiveOwnership(peers) && ValidEntries(entries)
    requires forall m :: 0 <= m < |entries| ==> entries[m].peer in peers
    requires forall m, n :: 0 <= m < n < |entries| ==> entries[m].peer.publicKey != entries[n].peer.publicKey
    ensures Validated(entries)
  {
    forall m, n, a, b |
      && 0 <= m < |entries| && 0 <= n < |entries|
      && 0 <= a < |entries[m].peer.allowedIps| && 0 <= b < |entries[n].peer.allowedIps|
      && SameDestinations(entries[m].peer.allowedIps[a], entries[n].peer.allowedIps[b])
      ensures entries[m].peer.publicKey == entries[n].peer.publicKey
    {
      var i :| 0 <= i < |peers| && peers[i] == entries[m].peer;
      var j :| 0 <= j < |peers| && peers[j] == entries[n].peer;
      assert SameDestinations(peers[i].allowedIps[a], peers[j].allowedIps[b]);
    }
  }

  /** Blocks of equal length that match one destination cover the same destinations. */
  lemma EqualLengthMatchesCoincide(a: Cidr, b: Cidr, d: Ip)
    requires ValidCidr(a) && ValidCidr(b) && ValidIp(d)
    requires Matches(a, d) && Matches(b, d) && a.prefix == b.prefix
    ensures SameDestinations(a, b)
  {
    MatchesIsBitPrefix(a, d);
    MatchesIsBitPrefix(b, d);
    KeyEqualIsSameNetwork(a, b);
    KeyIsCanonical(a, b);
  }

  /** Among validated entries the longest match has one owner. */
  lemma LongestOwnerIsUnique(entries: seq<Entry>, d: Ip, e: Entry, c: Cidr, f: Entry, b: Cidr)
    requires ValidEntries(entries) && ValidIp(d) && Validated(entries)
    requires OwnsLongest(entries, d, e, c) && OwnsLongest(entries, d, f, b)
    ensures e == f
  {
    hide Matches, ValidCidr, ValidIp, SameDestinations;
    var m :| 0 <= m < |entries| && entries[m] == e;
    var n :| 0 <= n < |entries| && entries[n] == f;
    var i :| 0 <= i < |e.peer.allowedIps| && e.peer.allowedIps[i] == c;
    var j :| 0 <= j < |f.peer.allowedIps| && f.peer.allowedIps[j] == b;
    EqualLengthMatchesCoincide(c, b, d);
    assert SameDestinations(entries[m].peer.allowedIps[i], entries[n].peer.allowedIps[j]);
  }

  /** The selected session is the one owner of the longest matching prefix, and every such owner is selected. */
  lemma SelectionIsUniqueLongestOwner(packet: Bytes, entries: seq<Entry>, e: Entry)
    requires ValidEntries(entries) && Validated(entries)
    ensures SelectSession(packet, entries) == Some(e)
            <==> PacketDestination(packet).Some? && exists c :: OwnsLongest(entries, PacketDestination(packet).value, e, c)
  {
    var destination := PacketDestination(packet);
    if destination.Some? {
      var d := destination.value;
      BestCandidateIsLongest(entries, d);
      if exists c :: OwnsLongest(entries, d, e, c) {
        var c :| OwnsLongest(entries, d, e, c);
        assert Covers(e, c, d);
        var best := BestCandidate(entries, d).value;
        LongestOwnerIsUnique(entries, d, e, c, best.entry, best.route);
      }
    }
  }

  /** Selection depends only on which entries there are. */
  lemma SelectionByMembers(packet: Bytes, entries: seq<Entry>, others: seq<Entry>)
    requires ValidEntries(entries) && Validated(entries)
    requires forall e :: e in entries <==> e in others
    ensures ValidEntries(others) && SelectSession(packet, others) == SelectSession(packet, entries)
  {
    hide BestCandidate, Validated, Matches, ValidCidr;
    forall n | 0 <= n < |others|
      ensures ValidPeer(others[n].peer)
    {
      assert others[n] in entries;
    }
    ShuffledIsValidated(entries, others);
    var destination := PacketDestination(packet);
    if destination.Some? {
      var d := destination.value;
      BestCandidateIsLongest(entries, d);
      BestCandidateIsLongest(others, d);
      var x, y := BestCandidate(entries, d), BestCandidate(others, d);
      if x.Some? {
        assert Covers(x.value.entry, x.value.route, d) && x.value.entry in others;
      }
      if y.Some? {
        assert Covers(y.value.entry, y.value.route, d) && y.value.entry in entries;
        LongestOwnerIsUnique(entries, d, x.value.entry, x.value.route, y.value.entry, y.value.route);
      }
    }
  }

  /** Selection does not depend on the iteration order of the session map. */
  lemma SelectionIgnoresOrder(packet: Bytes, entries: seq<Entry>, shuffled: seq<Entry>)
    requires ValidEntries(entries) && Validated(entries)
    requires multiset(shuffled) == multiset(entries)
    ensures ValidEntries(shuffled)
    ensures SelectSession(packet, shuffled) == SelectSession(packet, entries)
  {
    SameMembers(entries, shuffled);
    SelectionByMembers(packet, entries, shuffled);
  }

  lemma SameMembers(a: seq<Entry>, b: seq<Entry>)
    requires multiset(a) == multiset(b)
    ensures forall e :: e in a <==> e in b
  {
    forall e
      ensures e in a <==> e in b
    {
      assert e in multiset(a) <==> e in multiset(b);
    }
  }

  lemma ShuffledIsValidated(entries: seq<Entry>, shuffled: seq<Entry>)
    requires ValidEntries(entries) && Validated(entries) && ValidEntries(shuffled)
    requires forall e :: e in entries <==> e in shuffled
    ensures Validated(shuffled)
  {
    forall m, n | 0 <= m < |shuffled| && 0 <= n < |shuffled|
      ensures shuffled[m].peer.publicKey == shuffled[n].peer.publicKey ==> shuffled[m] == shuffled[n]
      ensures forall a, b ::
                && 0 <= a < |shuffled[m].peer.allowedIps| && 0 <= b < |shuffled[n].peer.allowedIps|
                && SameDestinations(shuffled[m].peer.allowedIps[a], shuffled[n].peer.allowedIps[b])
                ==> shuffled[m].peer.publicKey == shuffled[n].peer.publicKey
    {
      assert shuffled[m] in entries && shuffled[n] in entries;
      var i :| 0 <= i < |entries| && entries[i] == shuffled[m];
      var j :| 0 <= j < |entries| && entries[j] == shuffled[n];
    }
  }
}
