/** Handling one encrypted datagram (crypto/CryptoSessionManagerImpl.kt, `runEncryptedIngressLoop`). */
module EncryptedIngress {
  import opened Bytes
  import opened Results
  import opened Cidr
  import opened CryptokeyRouting
  import opened Reconciliation

  const MAX_FLUSH_ITERATIONS := 256

  datatype PacketAction =
    | Done
    | WriteToNetwork(packet: Bytes)
    | WriteToTunIpv4(packet: Bytes)
    | WriteToTunIpv6(packet: Bytes)
    | Error(code: nat)
    | NotSupported(operation: string)

  datatype Datagram = Datagram(payload: Bytes, address: string, port: int)

  /** What the session answers to its successive decrypt calls; any behaviour is possible. */
  type Answers = nat -> PacketAction

  predicate IsWrite(a: PacketAction)
  {
    a.WriteToNetwork? || a.WriteToTunIpv4? || a.WriteToTunIpv6?
  }

  predicate AllWrites(answers: Answers, n: nat)
  {
    forall i :: 0 <= i < n ==> IsWrite(answers(i))
  }

  /** The packets for the network among the first `n` answers, in order. */
  function ToNetwork(answers: Answers, n: nat): seq<Bytes>
  {
    if n == 0 then []
    else if answers(n - 1).WriteToNetwork? then ToNetwork(answers, n - 1) + [answers(n - 1).packet]
    else ToNetwork(answers, n - 1)
  }

  function ToTun(answers: Answers, n: nat): seq<Bytes>
  {
    if n == 0 then []
    else if answers(n - 1).WriteToTunIpv4? || answers(n - 1).WriteToTunIpv6? then ToTun(answers, n - 1) + [answers(n - 1).packet]
    else ToTun(answers, n - 1)
  }

  function TotalSize(packets: seq<Bytes>): nat
  {
    if packets == [] then 0 else TotalSize(packets[..|packets| - 1]) + |packets[|packets| - 1]|
  }

  lemma {:induction false} EveryWriteIsOutput(answers: Answers, n: nat)
    requires AllWrites(answers, n)
    ensures |ToNetwork(answers, n)| + |ToTun(answers, n)| == n
  {
    if n > 0 {
      EveryWriteIsOutput(answers, n - 1);
    }
  }

  /** Every packet keeps its place: answer `k` is output number "how many of its kind came before". */
  lemma {:induction false} OutputsInOrder(answers: Answers, n: nat, k: nat)
    requires k < n
    ensures answers(k).WriteToNetwork? ==>
              |ToNetwork(answers, k)| < |ToNetwork(answers, n)| && ToNetwork(answers, n)[|ToNetwork(answers, k)|] == answers(k).packet
    ensures answers(k).WriteToTunIpv4? || answers(k).WriteToTunIpv6? ==>
              |ToTun(answers, k)| < |ToTun(answers, n)| && ToTun(answers, n)[|ToTun(answers, k)|] == answers(k).packet
    ensures ToNetwork(answers, k) <= ToNetwork(answers, n) && ToTun(answers, k) <= ToTun(answers, n)
    decreases n
  {
    if k < n - 1 {
      OutputsInOrder(answers, n - 1, k);
    }
  }

  lemma TotalSizeSnoc(packets: seq<Bytes>, p: Bytes)
    ensures TotalSize(packets + [p]) == TotalSize(packets) + |p|
  {
    assert (packets + [p])[..|packets|] == packets;
  }

  /** `packets` as datagrams for one endpoint. */
  function Addressed(packets: seq<Bytes>, address: string, port: int): (r: seq<Datagram>)
    ensures |r| == |packets|
    ensures forall i :: 0 <= i < |r| ==> r[i].payload == packets[i] && r[i].address == address && r[i].port == port
  {
    seq(|packets|, i requires 0 <= i < |packets| => Datagram(packets[i], address, port))
  }

  /** Handling ends normally at answer `k`: everything before it was a packet, within the flush limit. */
  predicate CompletesAt(answers: Answers, k: nat)
  {
    k < MAX_FLUSH_ITERATIONS && answers(k).Done? && AllWrites(answers, k)
  }

  /** The peer's endpoint as text is the sender of the datagram. */
  predicate HasEndpoint(e: Entry, address: string, port: int)
  {
    e.peer.endpointAddress.Some? && ValidIp(e.peer.endpointAddress.value)
    && PlainString(e.peer.endpointAddress.value) == address && e.peer.endpointPort == Some(port)
  }

  /** For a sender given by the text of its address, the match is on the address itself, and on the port. */
  lemma EndpointIsSender(e: Entry, ip: Ip, port: int)
    requires ValidIp(ip) && (e.peer.endpointAddress.Some? ==> ValidIp(e.peer.endpointAddress.value))
    ensures HasEndpoint(e, PlainString(ip), port) <==> e.peer.endpointAddress == Some(ip) && e.peer.endpointPort == Some(port)
  {
    hide PlainString;
    if HasEndpoint(e, PlainString(ip), port) {
      PlainStringInjective(e.peer.endpointAddress.value, ip);
    }
  }

  /** Entry `i` has the sender's endpoint and no earlier one does. */
  predicate FirstFrom(entries: seq<Entry>, i: nat, address: string, port: int)
  {
    i < |entries| && HasEndpoint(entries[i], address, port)
    && forall j :: 0 <= j < i ==> !HasEndpoint(entries[j], address, port)
  }

  /** The first entry with the sender's endpoint, in the map's iteration order. */
  function SelectByEndpoint(entries: seq<Entry>, address: string, port: int): Option<Entry>
  {
    if entries == [] then None
    else if HasEndpoint(entries[0], address, port) then Some(entries[0])
    else SelectByEndpoint(entries[1..], address, port)
  }

  /** An entry is selected exactly when it is the first from the sender's endpoint. */
  lemma {:induction false} SelectsFirst(entries: seq<Entry>, i: nat, address: string, port: int)
    ensures FirstFrom(entries, i, address, port) ==> SelectByEndpoint(entries, address, port) == Some(entries[i])
    ensures SelectByEndpoint(entries, address, port).None? ==> !FirstFrom(entries, i, address, port)
    ensures SelectByEndpoint(entries, address, port).Some? ==> exists k: nat :: FirstFrom(entries, k, address, port)
  {
    hide HasEndpoint;
    if entries != [] {
      if HasEndpoint(entries[0], address, port) {
        assert FirstFrom(entries, 0, address, port);
      } else {
        SelectsFirst(entries[1..], if i == 0 then 0 else i - 1, address, port);
        forall k: nat ensures FirstFrom(entries[1..], k, address, port) == FirstFrom(entries, k + 1, address, port) {
          FirstFromTail(entries, k, address, port);
        }
      }
    }
  }

  lemma FirstFromTail(entries: seq<Entry>, k: nat, address: string, port: int)
    requires entries != [] && !HasEndpoint(entries[0], address, port)
    ensures FirstFrom(entries[1..], k, address, port) == FirstFrom(entries, k + 1, address, port)
  {
    hide HasEndpoint;
    assert FirstFrom(entries, k + 1, address, port) ==> FirstFrom(entries[1..], k, address, port) by {
      if FirstFrom(entries, k + 1, address, port) {
        forall j | 0 <= j < k ensures !HasEndpoint(entries[1..][j], address, port) {
          assert entries[1..][j] == entries[j + 1];
        }
      }
    }
    assert FirstFrom(entries[1..], k, address, port) ==> FirstFrom(entries, k + 1, address, port) by {
      if FirstFrom(entries[1..], k, address, port) {
        forall j | 0 <= j < k + 1 ensures !HasEndpoint(entries[j], address, port) {
          if j > 0 {
            assert entries[1..][j - 1] == entries[j];
          }
        }
      }
    }
  }

  /** A peer's counters after `received` more bytes in and `transmitted` more bytes out; absent means zero. */
  function Counted(stats: map<string, Stats>, key: string, received: nat, transmitted: nat): (r: map<string, Stats>)
    ensures key in r && forall k :: k in stats ==> k in r && (k != key ==> r[k] == stats[k])
  {
    var now := if key in stats then stats[key] else Stats(0, 0);
    stats[key := Stats(now.received + received, now.transmitted + transmitted)]
  }

  /** A peer's counters; a peer without any has counted nothing. */
  function CountersOf(stats: map<string, Stats>, key: string): Stats
  {
    if key in stats then stats[key] else Stats(0, 0)
  }

  /** Counting adds to the one peer's two counters and leaves all other peers alone. */
  lemma CountedMeaning(stats: map<string, Stats>, key: string, r: nat, t: nat, other: string)
    ensures CountersOf(Counted(stats, key, r, t), key).received == CountersOf(stats, key).received + r
    ensures CountersOf(Counted(stats, key, r, t), key).transmitted == CountersOf(stats, key).transmitted + t
    ensures other != key ==> CountersOf(Counted(stats, key, r, t), other) == CountersOf(stats, other)
  {}

  lemma CountedNothing(stats: map<string, Stats>, key: string)
    requires key in stats
    ensures Counted(stats, key, 0, TotalSize([])) == stats
  {}

  lemma CountedOneMore(stats: map<string, Stats>, key: string, packets: seq<Bytes>, p: Bytes)
    ensures Counted(Counted(stats, key, 0, TotalSize(packets)), key, 0, |p|) == Counted(stats, key, 0, TotalSize(packets + [p]))
  {
    CountedTwice(stats, key, 0, TotalSize(packets), 0, |p|);
    TotalSizeSnoc(packets, p);
  }

  lemma CountedTwice(stats: map<string, Stats>, key: string, r: nat, t: nat, r': nat, t': nat)
    ensures Counted(Counted(stats, key, r, t), key, r', t') == Counted(stats, key, r + r', t + t')
  {}

  /** Handling ends with an exception: a failing answer after packets only, or packets up to the flush limit. */
  predicate FailsAfter(answers: Answers, n: nat)
  {
    && AllWrites(answers, n)
    && (n == MAX_FLUSH_ITERATIONS || (n < MAX_FLUSH_ITERATIONS && !IsWrite(answers(n)) && !answers(n).Done?))
  }

  /** Every behaviour of a session either completes or fails, at one definite point. */
  lemma CompletesOrFails(answers: Answers, m: nat, n: nat)
    ensures CompletesAt(answers, m) && CompletesAt(answers, n) ==> m == n
    ensures FailsAfter(answers, m) && FailsAfter(answers, n) ==> m == n
    ensures !(CompletesAt(answers, m) && FailsAfter(answers, n))
  {
    if m < n {
      assert AllWrites(answers, n) ==> IsWrite(answers(m));
    } else if n < m {
      assert AllWrites(answers, m) ==> IsWrite(answers(n));
    }
  }

  /** The statistics and outgoing queues the loop writes to. */
  class Ingress {
    var stats: map<string, Stats>
    var network: seq<Datagram>
    var tun: seq<Bytes>

    constructor ()
      ensures stats == map[] && network == [] && tun == []
    {
      stats, network, tun := map[], [], [];
    }

    /** Decrypts until the session is done, collecting packets and counting the network ones as they come. */
    method Flush(key: string, answers: Answers)
      returns (completed: bool, calls: nat, pendingNetwork: seq<Bytes>, pendingTun: seq<Bytes>)
      requires key in stats
      modifies this`stats
      ensures 1 <= calls <= MAX_FLUSH_ITERATIONS
      ensures stats == Counted(old(stats), key, 0, TotalSize(pendingNetwork))
      ensures network == old(network) && tun == old(tun)
      ensures completed ==> CompletesAt(answers, calls - 1)
      ensures completed ==> pendingNetwork == ToNetwork(answers, calls - 1) && pendingTun == ToTun(answers, calls - 1)
      ensures !completed ==> exists n: nat :: n <= calls && FailsAfter(answers, n) && pendingNetwork == ToNetwork(answers, n)
    {
      hide Counted, TotalSize;
      var result := answers(0);
      calls := 1;
      var iterations := 0;
      pendingNetwork, pendingTun := [], [];
      CountedNothing(stats, key);
      while !result.Done?
        invariant 0 <= iterations < MAX_FLUSH_ITERATIONS && calls == iterations + 1 && result == answers(iterations)
        invariant AllWrites(answers, iterations)
        invariant pendingNetwork == ToNetwork(answers, iterations) && pendingTun == ToTun(answers, iterations)
        invariant stats == Counted(old(stats), key, 0, TotalSize(pendingNetwork))
        decreases MAX_FLUSH_ITERATIONS - iterations
      {
        if result.Error? || result.NotSupported? {
          assert FailsAfter(answers, iterations);
          return false, calls, pendingNetwork, pendingTun;
        }
        if result.WriteToNetwork? {
          CountedOneMore(old(stats), key, pendingNetwork, result.packet);
          stats := Counted(stats, key, 0, |result.packet|);
          pendingNetwork := pendingNetwork + [result.packet];
        } else {
          pendingTun := pendingTun + [result.packet];
        }
        iterations := iterations + 1;
        assert AllWrites(answers, iterations);
        if iterations >= MAX_FLUSH_ITERATIONS {
          assert FailsAfter(answers, iterations);
          return false, calls, pendingNetwork, pendingTun;
        }
        result := answers(iterations);
        calls := calls + 1;
      }
      completed := true;
    }

    /** One datagram, for sessions that behave as `behaviour` says by handle. A datagram from an unknown endpoint changes
        nothing. Otherwise its size is counted once, and at most 256 decrypt calls are made. If the session finishes,
        every packet it produced is forwarded in order, at most 255 of them, network packets back to the sender, and the
        transmitted count grows by exactly what was forwarded. If it does not, nothing is forwarded, but the network
        packets produced before the failure have been counted. */
    method HandleDatagram(entries: seq<Entry>, datagram: Datagram, behaviour: nat -> Answers)
      returns (completed: bool, calls: nat)
      modifies this
      ensures calls <= MAX_FLUSH_ITERATIONS
      ensures var selected := SelectByEndpoint(entries, datagram.address, datagram.port);
              match selected
              case None => completed && calls == 0 && stats == old(stats) && network == old(network) && tun == old(tun)
              case Some(e) =>
                var answers := behaviour(e.session);
                && (completed <==> exists k: nat :: CompletesAt(answers, k))
                && (completed ==>
                      && calls > 0 && CompletesAt(answers, calls - 1)
                      && network == old(network) + Addressed(ToNetwork(answers, calls - 1), datagram.address, datagram.port)
                      && tun == old(tun) + ToTun(answers, calls - 1)
                      && |network| + |tun| - |old(network)| - |old(tun)| == calls - 1 <= 255
                      && CountersOf(stats, e.peer.publicKey).received == CountersOf(old(stats), e.peer.publicKey).received + |datagram.payload|
                      && CountersOf(stats, e.peer.publicKey).transmitted
                         == CountersOf(old(stats), e.peer.publicKey).transmitted + TotalSize(ToNetwork(answers, calls - 1))
                      && stats == Counted(old(stats), e.peer.publicKey, |datagram.payload|, TotalSize(ToNetwork(answers, calls - 1))))
                && (!completed ==>
                      && network == old(network) && tun == old(tun)
                      && exists n: nat :: n <= calls && FailsAfter(answers, n)
                                     && stats == Counted(old(stats), e.peer.publicKey, |datagram.payload|, TotalSize(ToNetwork(answers, n))))
    {
      hide PlainString, ValidIp, HasEndpoint, CompletesAt, FailsAfter, Counted, CountersOf, TotalSize, SelectByEndpoint, ToNetwork, ToTun;
      var selected := SelectByEndpoint(entries, datagram.address, datagram.port);
      if selected.None? {
        return true, 0;
      }
      var key := selected.value.peer.publicKey;
      ghost var answers := behaviour(selected.value.session);
      stats := Counted(stats, key, |datagram.payload|, 0);
      var pendingNetwork, pendingTun;
      completed, calls, pendingNetwork, pendingTun := Flush(key, behaviour(selected.value.session));
      CountedTwice(old(stats), key, |datagram.payload|, 0, 0, TotalSize(pendingNetwork));
      if !completed {
        NeverCompletes(answers);
        return;
      }
      CompletedOutputs(answers, calls - 1);
      CountedMeaning(old(stats), key, |datagram.payload|, TotalSize(pendingNetwork), key);
      network := network + Addressed(pendingNetwork, datagram.address, datagram.port);
      tun := tun + pendingTun;
    }
  }

  lemma NeverCompletes(answers: Answers)
    requires exists n: nat :: FailsAfter(answers, n)
    ensures !exists k: nat :: CompletesAt(answers, k)
  {
    var n: nat :| FailsAfter(answers, n);
    forall k: nat ensures !CompletesAt(answers, k) {
      CompletesOrFails(answers, k, n);
    }
  }

  lemma CompletedOutputs(answers: Answers, k: nat)
    requires CompletesAt(answers, k)
    ensures |ToNetwork(answers, k)| + |ToTun(answers, k)| == k <= 255
  {
    EveryWriteIsOutput(answers, k);
  }
}
