/** Route identity: the table key and the path comparison, and what a re-encoded route keeps (platform/routes_macos.rs). */
module RoutePath {
  import opened Bytes
  import opened Results
  import opened RoutingMessage
  import opened RouteSnapshot

  /** `RouteKey`; `scope` holds the raw bytes of the interface index, zero for an unscoped route. */
  datatype RouteKey = RouteKey(family: bv8, destination: Bytes, mask: Bytes, host: bool, scope: Bytes)

  function AddressLength(family: bv8): nat
    requires family == AF_INET || family == AF_INET6
  {
    if family == AF_INET then 4 else 16
  }

  /** The address bytes of a socket address; a short one is completed with zeros. */
  function RawAddress(address: Bytes, family: bv8): (b: Bytes)
    requires family == AF_INET || family == AF_INET6
    ensures |b| == AddressLength(family)
  {
    var offset := if family == AF_INET then 4 else 8;
    seq(AddressLength(family), i => if 0 <= i && offset + i < |address| then address[offset + i] else 0)
  }

  /** `address_bytes`: the zone embedded in a link-local IPv6 address is cleared. */
  function AddressBytes(address: Bytes, family: bv8): (r: Result<Bytes>)
    ensures r.Ok? <==> family == AF_INET || family == AF_INET6
    ensures r.Ok? ==> |r.value| == AddressLength(family)
  {
    if family != AF_INET && family != AF_INET6 then Err
    else Ok(WithoutZone(RawAddress(address, family)))
  }

  function WithoutZone(b: Bytes): (r: Bytes)
    requires |b| == 4 || |b| == 16
    ensures |r| == |b|
  {
    if |b| == 16 && b[0] == 0xfe && b[1] & 0xc0 == 0x80 then b[2 := 0][3 := 0] else b
  }

  function Ones(n: nat): (b: Bytes)
    ensures |b| == n
    ensures forall i :: 0 <= i < n ==> b[i] == 0xff
  {
    seq(n, _ => 0xff as bv8)
  }

  function BitAnd(a: Bytes, m: Bytes): (r: Bytes)
    requires |a| == |m|
    ensures |r| == |a|
  {
    seq(|a|, i requires 0 <= i < |a| => a[i] & m[i])
  }

  /** The parsed part of a snapshot: interface, flags and address slots. */
  datatype Head = Head(index: Bytes, flags: bv32, slots: Slots)

  predicate ValidHead(h: Head)
  {
    |h.index| == 2 && |h.slots| == SLOTS && WellFormedSlots(h.slots)
  }

  function Parse(s: Snapshot): (r: Result<Head>)
    ensures r.Ok? ==> ValidHead(r.value)
  {
    if |s| < HEADER || Addresses(s).Err? then Err
    else
      DecodedAreWellFormed(s[HEADER..], PresentIn(s[12]));
      Ok(Head(Index(s), Flags(s), Addresses(s).value))
  }

  /** `Snapshot::key` */
  function Key(s: Snapshot): Result<RouteKey>
  {
    var head := Parse(s);
    if head.Err? then Err else KeyOf(head.value)
  }

  function KeyOf(h: Head): Result<RouteKey>
    requires ValidHead(h)
  {
    var dst := h.slots[DST];
    if dst.None? || |dst.value| < 2 || AddressBytes(dst.value, dst.value[1]).Err? then Err
    else
      var family := dst.value[1];
      var destination := AddressBytes(dst.value, family).value;
      var host := h.flags & RTF_HOST != 0;
      var mask := if host then Ones(AddressLength(family))
                  else AddressBytes(if h.slots[NETMASK].Some? then h.slots[NETMASK].value else [], family).value;
      Ok(RouteKey(family, BitAnd(destination, mask), mask, host, if h.flags & RTF_IFSCOPE != 0 then h.index else [0, 0]))
  }

  function Family(address: Bytes): Option<bv8>
  {
    if |address| > 1 then Some(address[1]) else None
  }

  /** `same_address` */
  function SameAddress(a: Bytes, b: Bytes): Result<bool>
  {
    if Family(a).None? || Family(a) != Family(b) then Ok(false)
    else if AddressBytes(a, a[1]).Err? then Err
    else Ok(AddressBytes(a, a[1]) == AddressBytes(b, a[1]))
  }

  /** The gateway comparison of `same_path`. */
  function SameGateway(a: Option<Bytes>, b: Option<Bytes>): Result<bool>
  {
    if a.Some? && b.Some? then
      if Family(a.value) == Some(AF_LINK) && Family(b.value) == Some(AF_LINK) then Ok(true)
      else SameAddress(a.value, b.value)
    else Ok(a == b)
  }

  /** The source comparison of `same_path`: a route without a source accepts any. */
  function SameSource(a: Option<Bytes>, b: Option<Bytes>): Result<bool>
  {
    if b.None? then Ok(true) else if a.Some? then SameAddress(a.value, b.value) else Ok(false)
  }

  /** `left.same_path(right)` */
  function SamePath(left: Snapshot, right: Snapshot): Result<bool>
  {
    var l, r := Parse(left), Parse(right);
    if l.Err? || r.Err? then Err else SamePathOf(l.value, r.value)
  }

  function SamePathOf(l: Head, r: Head): Result<bool>
    requires ValidHead(l) && ValidHead(r)
  {
    if KeyOf(l).Err? || KeyOf(r).Err? then Err
    else if KeyOf(l) != KeyOf(r) || l.index != r.index || l.flags & ROUTING_FLAGS != r.flags & ROUTING_FLAGS then Ok(false)
    else
      var gateway, source := SameGateway(l.slots[GATEWAY], r.slots[GATEWAY]), SameSource(l.slots[IFA], r.slots[IFA]);
      if gateway.Err? || source.Err? then Err else Ok(gateway.value && source.value)
  }

  // ------------------------------------------------------ re-encoded messages

  /** Byte `i` of a request header: one of the fields written, or the byte that was there. */
  function HeaderByte(h: Bytes, total: nat, operation: bv8, addrs: bv8, i: nat): bv8
    requires |h| == HEADER && total < 0x1_0000 && i < HEADER
  {
    if i < 2 then LengthBytes(total)[i]
    else if i == 3 then operation
    else if 8 <= i < 12 then WordBytes(Word(h[8..12]) & !STATUS_FLAGS)[i - 8]
    else if i == 12 then addrs
    else if 13 <= i < 16 || 24 <= i < 28 then 0
    else if 32 <= i < 36 then WordBytes(if operation == RTM_ADD then ALL_METRICS else 0)[i - 32]
    else h[i]
  }

  lemma RequestHeaderByte(h: Bytes, total: nat, operation: bv8, addrs: bv8, i: nat)
    requires |h| == HEADER && total < 0x1_0000 && i < HEADER
    ensures RequestHeader(h, total, operation, addrs)[i] == HeaderByte(h, total, operation, addrs, i)
  {
    hide Put, WordBytes, Word, LengthBytes;
    assert i == 13 || i == 14 || i == 15 ==> [addrs, 0, 0, 0][i - 12] == 0;
  }

  lemma RequestHeaderBytes(h: Bytes, total: nat, operation: bv8, addrs: bv8)
    requires |h| == HEADER && total < 0x1_0000
    ensures forall i :: 0 <= i < HEADER ==> RequestHeader(h, total, operation, addrs)[i] == HeaderByte(h, total, operation, addrs, i)
  {
    hide RequestHeader, HeaderByte;
    forall i | 0 <= i < HEADER
      ensures RequestHeader(h, total, operation, addrs)[i] == HeaderByte(h, total, operation, addrs, i)
    {
      RequestHeaderByte(h, total, operation, addrs, i);
    }
  }

  lemma RequestHeaderFields(h: Bytes, total: nat, operation: bv8, addrs: bv8)
    requires |h| == HEADER && total < 0x1_0000
    ensures var r := RequestHeader(h, total, operation, addrs);
            && r[..2] == LengthBytes(total) && r[2] == h[2] && r[3] == operation && r[4..8] == h[4..8]
            && r[8..12] == WordBytes(Word(h[8..12]) & !STATUS_FLAGS) && r[12] == addrs && r[16..24] == h[16..24]
            && r[28..32] == h[28..32] && r[36..] == h[36..]
  {
    hide RequestHeader, WordBytes, Word, LengthBytes;
    RequestHeaderBytes(h, total, operation, addrs);
  }

  lemma StatusFlagsCleared(f: bv32)
    ensures var g := f & !STATUS_FLAGS;
            && g & RTF_HOST == f & RTF_HOST && g & RTF_IFSCOPE == f & RTF_IFSCOPE && g & RTF_PROXY == f & RTF_PROXY
            && g & ROUTING_FLAGS == f & ROUTING_FLAGS && g & !STATUS_FLAGS == g
  {}

  lemma StatusBitsCleared(f: bv32)
    ensures var g := f & !STATUS_FLAGS; g & RTF_DONE == 0 && g & RTF_IFREF == 0 && g & RTF_CONDEMNED == 0 && g & RTF_DEAD == 0
  {}

  lemma OtherBitsKept(f: bv32)
    ensures var g := f & !STATUS_FLAGS;
            g | RTF_DONE | RTF_IFREF | RTF_CONDEMNED | RTF_DEAD == f | RTF_DONE | RTF_IFREF | RTF_CONDEMNED | RTF_DEAD
  {}

  /** A request is its header followed by its slots. */
  lemma MessageParts(s: Snapshot, operation: bv8)
    requires Message(s, operation).Ok?
    ensures |s| >= HEADER && Addresses(s).Ok?
    ensures var slots := RequestSlots(s);
            && HEADER + |Encode(slots)| < 0x1_0000
            && Message(s, operation).value
               == RequestHeader(s[..HEADER], HEADER + |Encode(slots)|, operation, AddrsOf(Present(slots))) + Encode(slots)
  {
    hide RequestHeader, Encode, AddrsOf, Present, Addresses, RequestSlots, Index, Flags;
  }

  /** The header fields of a request. */
  lemma MessageHeader(s: Snapshot, operation: bv8)
    requires Message(s, operation).Ok?
    ensures var m := Message(s, operation).value;
            && |m| >= HEADER && |s| >= HEADER && Addresses(s).Ok?
            && m[..2] == LengthBytes(|m|) && m[2] == s[2] && m[3] == operation && m[4..8] == s[4..8]
            && m[8..12] == WordBytes(Word(s[8..12]) & !STATUS_FLAGS) && m[12] == AddrsOf(Present(RequestSlots(s)))
            && m[16..24] == s[16..24] && m[28..32] == s[28..32] && m[36..HEADER] == s[36..HEADER]
            && m[HEADER..] == Encode(RequestSlots(s))
  {
    hide Message, RequestHeader, WordBytes, Word, LengthBytes, Encode, AddrsOf, Present, Addresses, RequestSlots;
    MessageParts(s, operation);
    var slots := RequestSlots(s);
    var head, body, addrs := s[..HEADER], Encode(slots), AddrsOf(Present(slots));
    var r := RequestHeader(head, HEADER + |body|, operation, addrs);
    RequestHeaderFields(head, HEADER + |body|, operation, addrs);
    HeadSlices(r, body);
    HeadSlices(head, s[HEADER..]);
    assert s == head + s[HEADER..];
  }

  /** The slots of a request. */
  lemma MessageSlots(s: Snapshot, operation: bv8)
    requires Message(s, operation).Ok?
    ensures var m := Message(s, operation).value;
            && |m| >= HEADER && |s| >= HEADER && Addresses(s).Ok? && Addresses(m) == Ok(RequestSlots(s))
  {
    MessageHeader(s, operation);
    hide Message, Decode, Encode, AddrsOf, Present, PresentIn, RequestSlots;
    var slots := RequestSlots(s);
    PresentRoundTrip(Present(slots));
    DecodeEncode(slots, []);
    assert Encode(slots) + [] == Encode(slots);
  }

  /** What a request carries: the same interface, version, sequence fields and metrics, the flags without status
      bits, and every address slot except IFP, which names the interface. */
  lemma MessageFields(s: Snapshot, operation: bv8)
    requires Message(s, operation).Ok?
    ensures var m := Message(s, operation).value;
            && |m| >= HEADER && |s| >= HEADER && Addresses(s).Ok?
            && Length(m) == |m| && m[2] == s[2] && m[3] == operation
            && m[4..8] == s[4..8] && Index(m) == Index(s)
            && Flags(m) == Flags(s) & !STATUS_FLAGS
            && m[16..24] == s[16..24] && m[28..32] == s[28..32] && m[36..HEADER] == s[36..HEADER]
            && Addresses(m) == Ok(RequestSlots(s))
            && m[HEADER..] == Encode(RequestSlots(s))
  {
    hide Message, WordBytes, Word, LengthBytes, Length, Encode, AddrsOf, Present, Addresses, RequestSlots;
    MessageSlots(s, operation);
    MessageHeader(s, operation);
    var m := Message(s, operation).value;
    MessageIsShort(s, operation);
    LengthRoundTrip(|m|, m[2..]);
    assert m == m[..2] + m[2..];
    WordRoundTrip(Flags(s) & !STATUS_FLAGS);
    assert m[4..6] == m[4..8][..2] && s[4..6] == s[4..8][..2];
  }

  lemma MessageIsShort(s: Snapshot, operation: bv8)
    requires Message(s, operation).Ok?
    ensures |Message(s, operation).value| < 0x1_0000
  {
    hide Message, RequestHeader, Encode, AddrsOf, Present, Addresses, RequestSlots;
    MessageParts(s, operation);
  }

  /** A request carries none of the four status flags, and every other flag of its route. */
  lemma RequestFlags(s: Snapshot, operation: bv8)
    requires Message(s, operation).Ok?
    ensures var m := Message(s, operation).value;
            && |m| >= HEADER && |s| >= HEADER
            && var g, f := Flags(m), Flags(s);
               && g & RTF_DONE == 0 && g & RTF_IFREF == 0 && g & RTF_CONDEMNED == 0 && g & RTF_DEAD == 0
               && g | RTF_DONE | RTF_IFREF | RTF_CONDEMNED | RTF_DEAD == f | RTF_DONE | RTF_IFREF | RTF_CONDEMNED | RTF_DEAD
  {
    hide Message, Flags, Addresses, Length, Encode;
    MessageFields(s, operation);
    StatusBitsCleared(Flags(s));
    OtherBitsKept(Flags(s));
  }

  /** The control fields of a request: no error, no presence bit above the eighth slot, and metrics only in an ADD. */
  lemma MessageControls(s: Snapshot, operation: bv8)
    requires Message(s, operation).Ok?
    ensures var m := Message(s, operation).value;
            && |m| >= HEADER
            && m[24..28] == Zeros(4) && m[13..16] == Zeros(3)
            && m[32..36] == WordBytes(if operation == RTM_ADD then ALL_METRICS else 0)
  {
    hide Message, RequestHeader, WordBytes, Encode, AddrsOf, Present, Addresses, RequestSlots;
    MessageParts(s, operation);
    var slots := RequestSlots(s);
    var total, addrs := HEADER + |Encode(slots)|, AddrsOf(Present(slots));
    var r := RequestHeader(s[..HEADER], total, operation, addrs);
    RequestHeaderControls(s[..HEADER], total, operation, addrs);
    var m := r + Encode(slots);
    assert m[24..28] == r[24..28] && m[13..16] == r[13..16] && m[32..36] == r[32..36];
  }

  lemma RequestHeaderControls(h: Bytes, total: nat, operation: bv8, addrs: bv8)
    requires |h| == HEADER && total < 0x1_0000
    ensures var r := RequestHeader(h, total, operation, addrs);
            && r[24..28] == Zeros(4) && r[13..16] == Zeros(3)
            && r[32..36] == WordBytes(if operation == RTM_ADD then ALL_METRICS else 0)
  {
    hide RequestHeader, WordBytes, Word, LengthBytes;
    RequestHeaderBytes(h, total, operation, addrs);
  }

  lemma HeadSlices(h: Bytes, body: Bytes)
    requires |h| == HEADER
    ensures var m := h + body;
            && m[..2] == h[..2] && m[2] == h[2] && m[3] == h[3] && m[4..8] == h[4..8] && m[4..6] == h[4..6] && m[8..12] == h[8..12]
            && m[12] == h[12] && m[16..24] == h[16..24] && m[28..32] == h[28..32] && m[36..HEADER] == h[36..]
            && m[..HEADER] == h && m[HEADER..] == body
  {}

  /** What a request says of the route it was made from. */
  function RequestHead(h: Head): (r: Head)
    requires ValidHead(h)
    ensures ValidHead(r)
  {
    h.(flags := h.flags & !STATUS_FLAGS, slots := h.slots[IFP := Some(LinkAddress(h.index))])
  }

  /** Round trip: encoding a parsed route and parsing it again changes no address but IFP and no flag but status. */
  lemma RequestRoundTrip(s: Snapshot, operation: bv8)
    requires Message(s, operation).Ok?
    ensures Parse(s).Ok? && Parse(Message(s, operation).value) == Ok(RequestHead(Parse(s).value))
  {
    hide Message, Addresses, LinkAddress, Length, Encode;
    MessageFields(s, operation);
  }

  lemma RequestHeadKey(h: Head)
    requires ValidHead(h)
    ensures KeyOf(RequestHead(h)) == KeyOf(h)
  {
    StatusFlagsCleared(h.flags);
  }

  /** A request addresses the same table entry as the route it was made from. */
  lemma RequestKeepsKey(s: Snapshot, operation: bv8)
    requires Message(s, operation).Ok?
    ensures Key(Message(s, operation).value) == Key(s)
  {
    RequestRoundTrip(s, operation);
    RequestHeadKey(Parse(s).value);
  }

  /** Re-encoding is idempotent: a request made from a request is the request made from the original. */
  lemma RequestOfRequest(s: Snapshot, first: bv8, second: bv8)
    requires Message(s, first).Ok?
    ensures Message(Message(s, first).value, second) == Message(s, second)
  {
    MessageAllowed(s, first);
    var m := Message(s, first).value;
    MessageFields(s, first);
    hide Assemble, Addresses, Index, Flags, Length, Encode;
    StatusFlagsCleared(Flags(s));
    SameSlots(s, first);
    SameAssembly(m, s, RequestSlots(s), second);
  }

  /** What `message` checks before it encodes. */
  lemma MessageAllowed(s: Snapshot, operation: bv8)
    requires Message(s, operation).Ok?
    ensures |s| >= HEADER && Index(s) != [0, 0] && Flags(s) & RTF_PROXY == 0 && Addresses(s).Ok?
  {
    hide Assemble, Addresses, Index, Flags;
  }

  lemma SameSlots(s: Snapshot, operation: bv8)
    requires Message(s, operation).Ok?
    ensures var m := Message(s, operation).value;
            |m| >= HEADER && |s| >= HEADER && Addresses(s).Ok? && Addresses(m).Ok? && RequestSlots(m) == RequestSlots(s)
  {
    hide Message, Addresses, LinkAddress, Length, Encode;
    MessageFields(s, operation);
    var slots, link := Addresses(s).value, Some(LinkAddress(Index(s)));
    SlotCount(s);
    assert slots[IFP := link][IFP := link] == slots[IFP := link];
  }

  lemma SlotCount(s: Snapshot)
    requires |s| >= HEADER && Addresses(s).Ok?
    ensures |Addresses(s).value| == SLOTS
  {
    DecodedAreWellFormed(s[HEADER..], PresentIn(s[12]));
  }

  lemma SameAssembly(g: Snapshot, h: Snapshot, slots: Slots, operation: bv8)
    requires |g| >= HEADER && |h| >= HEADER && |slots| == SLOTS
    requires g[2] == h[2] && g[4..8] == h[4..8] && g[16..24] == h[16..24] && g[28..32] == h[28..32] && g[36..HEADER] == h[36..HEADER]
    requires Flags(g) & !STATUS_FLAGS == Flags(h) & !STATUS_FLAGS
    ensures Assemble(g[..HEADER], slots, operation) == Assemble(h[..HEADER], slots, operation)
  {
    hide RequestHeader, Encode, AddrsOf, Present, Flags;
    var total := HEADER + |Encode(slots)|;
    if total < 0x1_0000 {
      SameRequestHeader(g, h, total, operation, AddrsOf(Present(slots)));
    }
  }

  lemma SameRequestHeader(g: Snapshot, h: Snapshot, total: nat, operation: bv8, addrs: bv8)
    requires |g| >= HEADER && |h| >= HEADER && total < 0x1_0000
    requires g[2] == h[2] && g[4..8] == h[4..8] && g[16..24] == h[16..24] && g[28..32] == h[28..32] && g[36..HEADER] == h[36..HEADER]
    requires Flags(g) & !STATUS_FLAGS == Flags(h) & !STATUS_FLAGS
    ensures RequestHeader(g[..HEADER], total, operation, addrs) == RequestHeader(h[..HEADER], total, operation, addrs)
  {
    hide RequestHeader, HeaderByte, Flags;
    var x, y := RequestHeader(g[..HEADER], total, operation, addrs), RequestHeader(h[..HEADER], total, operation, addrs);
    forall i | 0 <= i < HEADER
      ensures x[i] == y[i]
    {
      RequestHeaderByte(g[..HEADER], total, operation, addrs, i);
      RequestHeaderByte(h[..HEADER], total, operation, addrs, i);
      SameHeaderByte(g, h, total, operation, addrs, i);
    }
  }

  lemma SameHeaderByte(g: Snapshot, h: Snapshot, total: nat, operation: bv8, addrs: bv8, i: nat)
    requires |g| >= HEADER && |h| >= HEADER && total < 0x1_0000 && i < HEADER
    requires g[2] == h[2] && g[4..8] == h[4..8] && g[16..24] == h[16..24] && g[28..32] == h[28..32] && g[36..HEADER] == h[36..HEADER]
    requires Flags(g) & !STATUS_FLAGS == Flags(h) & !STATUS_FLAGS
    ensures HeaderByte(g[..HEADER], total, operation, addrs, i) == HeaderByte(h[..HEADER], total, operation, addrs, i)
  {
    hide Word, WordBytes, LengthBytes;
    assert g[..HEADER][8..12] == g[8..12] && h[..HEADER][8..12] == h[8..12];
    assert 4 <= i < 8 ==> g[i] == g[4..8][i - 4] && h[i] == h[4..8][i - 4];
    assert 16 <= i < 24 ==> g[i] == g[16..24][i - 16] && h[i] == h[16..24][i - 16];
    assert 28 <= i < 32 ==> g[i] == g[28..32][i - 28] && h[i] == h[28..32][i - 28];
    assert 36 <= i ==> g[i] == g[36..HEADER][i - 36] && h[i] == h[36..HEADER][i - 36];
  }

  // ------------------------------------------------------------- same path

  predicate ComparableGateway(gateway: Option<Bytes>)
  {
    gateway.Some? ==> Family(gateway.value) in {Some(AF_LINK), Some(AF_INET), Some(AF_INET6)}
  }

  predicate ComparableSource(source: Option<Bytes>)
  {
    source.Some? ==> Family(source.value) in {Some(AF_INET), Some(AF_INET6)}
  }

  /** Gateway and source are of a family that `same_path` can compare. */
  predicate ComparablePath(s: Snapshot)
  {
    Parse(s).Ok? && ComparableGateway(Parse(s).value.slots[GATEWAY]) && ComparableSource(Parse(s).value.slots[IFA])
  }

  lemma SameGatewayReflexive(g: Option<Bytes>)
    ensures SameGateway(g, g) == Ok(true) <==> ComparableGateway(g)
  {}

  lemma SameSourceReflexive(g: Option<Bytes>)
    ensures SameSource(g, g) == Ok(true) <==> ComparableSource(g)
  {}

  lemma RequestHeadPath(h: Head)
    requires ValidHead(h) && KeyOf(h).Ok?
    ensures SamePathOf(RequestHead(h), h) == Ok(true) <==> ComparableGateway(h.slots[GATEWAY]) && ComparableSource(h.slots[IFA])
  {
    RequestHeadKey(h);
    StatusFlagsCleared(h.flags);
    SameGatewayReflexive(h.slots[GATEWAY]);
    SameSourceReflexive(h.slots[IFA]);
  }

  /** The route a request installs has the path of its original exactly when that path is comparable. */
  lemma RequestKeepsPath(s: Snapshot, operation: bv8)
    requires Message(s, operation).Ok? && Key(s).Ok?
    ensures SamePath(Message(s, operation).value, s) == Ok(true) <==> ComparablePath(s)
  {
    RequestRoundTrip(s, operation);
    RequestHeadPath(Parse(s).value);
  }

}
