/** Routing-socket messages on macOS (platform/endpoint_macos.rs, platform/routes_macos.rs).
    `rt_msghdr` is 92 bytes, integers are little-endian. A `u16` interface index is kept as its two raw bytes. */
module RoutingMessage {
  import opened Bytes
  import opened Results

  const HEADER := 92
  const SLOTS := 8

  // Address slots (RTAX_*).
  const DST := 0
  const GATEWAY := 1
  const NETMASK := 2
  const IFP := 4
  const IFA := 5

  // Their presence bits (RTA_*).
  const RTA_DST: bv8 := 0x1
  const RTA_GATEWAY: bv8 := 0x2
  const RTA_NETMASK: bv8 := 0x4
  const RTA_IFP: bv8 := 0x10
  const RTA_IFA: bv8 := 0x20

  const AF_INET: bv8 := 2
  const AF_LINK: bv8 := 18
  const AF_INET6: bv8 := 30

  const RTM_VERSION: bv8 := 5
  const RTM_ADD: bv8 := 1
  const RTM_DELETE: bv8 := 2

  const RTF_UP: bv32 := 0x1
  const RTF_GATEWAY: bv32 := 0x2
  const RTF_HOST: bv32 := 0x4
  const RTF_REJECT: bv32 := 0x8
  const RTF_DONE: bv32 := 0x40
  const RTF_STATIC: bv32 := 0x800
  const RTF_BLACKHOLE: bv32 := 0x1000
  const RTF_IFSCOPE: bv32 := 0x100_0000
  const RTF_CONDEMNED: bv32 := 0x200_0000
  const RTF_IFREF: bv32 := 0x400_0000
  const RTF_PROXY: bv32 := 0x800_0000
  const RTF_DEAD: bv32 := 0x2000_0000

  /** Flags that describe the path; compared by `same_path`. */
  const ROUTING_FLAGS: bv32 := RTF_GATEWAY | RTF_REJECT | RTF_BLACKHOLE

  /** Status flags that a request must not carry. */
  const STATUS_FLAGS: bv32 := RTF_DONE | RTF_IFREF | RTF_CONDEMNED | RTF_DEAD

  /** All eight metric bits, RTV_MTU to RTV_RTTVAR. */
  const ALL_METRICS: bv32 := 0xff

  // --------------------------------------------------------------- integers

  function Word(b: Bytes): bv32
    requires |b| == 4
  {
    b[0] as bv32 | (b[1] as bv32 << 8) | (b[2] as bv32 << 16) | (b[3] as bv32 << 24)
  }

  function WordBytes(w: bv32): (b: Bytes)
    ensures |b| == 4
  {
    [(w & 0xff) as bv8, ((w >> 8) & 0xff) as bv8, ((w >> 16) & 0xff) as bv8, ((w >> 24) & 0xff) as bv8]
  }

  lemma WordRoundTrip(w: bv32)
    ensures Word(WordBytes(w)) == w
  {}

  /** The machine is little-endian: byte `i` of a word counts 256 to the power `i`. */
  lemma WordIsLittleEndian(b: Bytes)
    requires |b| == 4
    ensures Word(b) & 0xff == b[0] as bv32 && (Word(b) >> 8) & 0xff == b[1] as bv32
    ensures (Word(b) >> 16) & 0xff == b[2] as bv32 && Word(b) >> 24 == b[3] as bv32
  {
    FourBytes(b[0], b[1], b[2], b[3]);
  }

  lemma FourBytes(p: bv8, q: bv8, r: bv8, s: bv8)
    ensures var w := p as bv32 | (q as bv32 << 8) | (r as bv32 << 16) | (s as bv32 << 24);
            w & 0xff == p as bv32 && (w >> 8) & 0xff == q as bv32 && (w >> 16) & 0xff == r as bv32 && w >> 24 == s as bv32
  {}

  function LengthBytes(n: nat): (b: Bytes)
    requires n < 0x1_0000
    ensures |b| == 2
  {
    [ByteOf(n % 256), ByteOf(n / 256)]
  }

  function Length(b: Bytes): nat
    requires |b| >= 2
  {
    b[0] as int + 256 * b[1] as int
  }

  lemma LengthRoundTrip(n: nat, rest: Bytes)
    requires n < 0x1_0000
    ensures Length(LengthBytes(n) + rest) == n
  {
    assert (LengthBytes(n) + rest)[0] == ByteOf(n % 256) && (LengthBytes(n) + rest)[1] == ByteOf(n / 256);
  }

  /** The number a byte string denotes, least significant byte first. */
  function LittleEndian(b: seq<Octet>): nat
  {
    if b == [] then 0 else b[0] + 256 * LittleEndian(b[1..])
  }

  lemma LengthIsLittleEndian(b: Bytes)
    requires |b| == 2
    ensures Length(b) == LittleEndian(Octets(b))
  {
    var o := Octets(b);
    assert o[1..][0] == o[1] && o[1..][1..] == [];
    assert LittleEndian(o[1..]) == o[1];
  }

  // ------------------------------------------------------ padded address list

  /** `len.max(4).next_multiple_of(4)` */
  function Step(n: nat): (s: nat)
    ensures s >= 4 && s >= n && s % 4 == 0 && (n > 0 ==> s < n + 4)
  {
    if n <= 4 then 4 else (n + 3) / 4 * 4
  }

  function Padded(address: Bytes): (p: Bytes)
    ensures |p| == Step(|address|)
  {
    address + Zeros(Step(|address|) - |address|)
  }

  /** `append`: the address followed by zeros up to its step. */
  method Append(payload: Bytes, address: Bytes) returns (extended: Bytes)
    ensures extended == payload + Padded(address)
  {
    var start := |payload|;
    extended := payload + address;
    while |extended| < start + Step(|address|)
      invariant |extended| <= start + Step(|address|)
      invariant extended == payload + (address + Zeros(|extended| - start - |address|))
      decreases start + Step(|address|) - |extended|
    {
      extended := extended + [0];
    }
  }

  type Slots = seq<Option<Bytes>>

  /** A socket address whose first byte is its length; the empty one is written as zeros. */
  predicate SelfSized(v: Bytes)
  {
    v == [] || (|v| < 256 && v[0] as int == |v|)
  }

  predicate WellFormedSlots(slots: Slots)
  {
    forall i :: 0 <= i < |slots| && slots[i].Some? ==> SelfSized(slots[i].value)
  }

  function Present(slots: Slots): (p: seq<bool>)
    ensures |p| == |slots|
  {
    seq(|slots|, i requires 0 <= i < |slots| => slots[i].Some?)
  }

  /** The present addresses, each padded, in slot order. */
  function Encode(slots: Slots): Bytes
  {
    if slots == [] then []
    else (if slots[0].Some? then Padded(slots[0].value) else []) + Encode(slots[1..])
  }

  /** Reads the slots marked present from the front of `tail`. */
  function Decode(tail: Bytes, present: seq<bool>): Result<Slots>
    decreases |present|
  {
    if present == [] then Ok([])
    else if !present[0] then
      var rest := Decode(tail, present[1..]);
      if rest.Err? then Err else Ok([None] + rest.value)
    else if tail == [] then Err
    else
      var length := tail[0] as int;
      if Step(length) > |tail| then Err
      else
        var rest := Decode(tail[Step(length)..], present[1..]);
        if rest.Err? then Err else Ok([Some(tail[..length])] + rest.value)
  }

  lemma {:induction false} DecodedAreWellFormed(tail: Bytes, present: seq<bool>)
    requires Decode(tail, present).Ok?
    ensures |Decode(tail, present).value| == |present|
    ensures WellFormedSlots(Decode(tail, present).value)
    ensures Present(Decode(tail, present).value) == present
    decreases |present|
  {
    hide Step, SelfSized, WellFormedSlots, Present;
    if present == [] {
      NoSlotsAreWellFormed();
    } else {
      var n := if present[0] then Step(tail[0] as int) else 0;
      var rest := Decode(tail[n..], present[1..]);
      assert tail[0..] == tail;
      DecodedAreWellFormed(tail[n..], present[1..]);
      var first := Decode(tail, present).value[0];
      if present[0] {
        FirstIsSelfSized(tail);
      }
      ConsWellFormed(first, rest.value);
      assert Decode(tail, present).value == [first] + rest.value;
      assert present == [present[0]] + present[1..];
    }
  }

  lemma NoSlotsAreWellFormed()
    ensures WellFormedSlots([]) && Present([]) == []
  {}

  lemma FirstIsSelfSized(tail: Bytes)
    requires tail != [] && tail[0] as int <= |tail|
    ensures SelfSized(tail[..tail[0] as int])
  {}

  lemma ConsWellFormed(first: Option<Bytes>, rest: Slots)
    requires WellFormedSlots(rest) && (first.Some? ==> SelfSized(first.value))
    ensures WellFormedSlots([first] + rest)
    ensures Present([first] + rest) == [first.Some?] + Present(rest)
  {}

  lemma DecodePadded(v: Bytes, tail: Bytes, present: seq<bool>)
    requires SelfSized(v) && Decode(tail, present).Ok?
    ensures Decode(Padded(v) + tail, [true] + present) == Ok([Some(v)] + Decode(tail, present).value)
  {
    var all := Padded(v) + tail;
    PaddedHead(v);
    assert all[0] == Padded(v)[0];
    assert all[Step(|v|)..] == tail;
    assert all[..|v|] == v;
    assert ([true] + present)[1..] == present;
  }

  lemma DecodeAbsent(tail: Bytes, present: seq<bool>)
    requires Decode(tail, present).Ok?
    ensures Decode(tail, [false] + present) == Ok([None] + Decode(tail, present).value)
  {
    assert ([false] + present)[1..] == present;
  }

  lemma SlotsFront(slots: Slots)
    requires slots != [] && WellFormedSlots(slots)
    ensures slots == [slots[0]] + slots[1..] && WellFormedSlots(slots[1..])
    ensures slots[0].Some? ==> SelfSized(slots[0].value)
    ensures Present(slots) == [slots[0].Some?] + Present(slots[1..])
  {}

  /** Reading back what was written returns the same slots, whatever follows. */
  lemma {:induction false} DecodeEncode(slots: Slots, rest: Bytes)
    requires WellFormedSlots(slots)
    ensures Decode(Encode(slots) + rest, Present(slots)) == Ok(slots)
  {
    hide Padded, SelfSized, Step, WellFormedSlots;
    if slots == [] {
    } else {
      hide Decode, Present;
      var more := slots[1..];
      SlotsFront(slots);
      DecodeEncode(more, rest);
      if slots[0].Some? {
        var v := slots[0].value;
        DecodePadded(v, Encode(more) + rest, Present(more));
        assert Encode(slots) + rest == Padded(v) + (Encode(more) + rest);
      } else {
        DecodeAbsent(Encode(more) + rest, Present(more));
        assert Encode(slots) == Encode(more);
      }
    }
  }

  lemma PaddedHead(v: Bytes)
    requires SelfSized(v)
    ensures Padded(v)[0] as int == |v|
  {
    if v == [] {
      assert Padded(v)[0] == 0;
    }
  }

  // ------------------------------------------------------------ presence bits

  /** `rtm_addrs & (1 << i)` for the eight slots: the bits of the low byte, least significant first. */
  function PresentIn(addrs: bv8): (p: seq<bool>)
    ensures |p| == SLOTS
  {
    seq(SLOTS, i requires 0 <= i < SLOTS => Bit(addrs, 7 - i))
  }

  /** The low byte that `addrs |= 1 << index` accumulates. */
  function AddrsOf(present: seq<bool>): bv8
    requires |present| <= SLOTS
  {
    if present == [] then 0
    else if present[|present| - 1] then AddrsOf(present[..|present| - 1]) | Single(8 - |present|)
    else AddrsOf(present[..|present| - 1])
  }

  lemma {:induction false} AddrsOfBit(present: seq<bool>, i: nat)
    requires |present| <= SLOTS && i < SLOTS
    ensures Bit(AddrsOf(present), 7 - i) <==> i < |present| && present[i]
  {
    if present != [] {
      var init := present[..|present| - 1];
      AddrsOfBit(init, i);
      BitOfOr(AddrsOf(init), 8 - |present|, 7 - i);
    } else {
      BitOfMasked(0, 0, 7 - i);
    }
  }

  lemma PresentRoundTrip(present: seq<bool>)
    requires |present| == SLOTS
    ensures PresentIn(AddrsOf(present)) == present
  {
    forall i | 0 <= i < SLOTS
      ensures PresentIn(AddrsOf(present))[i] == present[i]
    {
      AddrsOfBit(present, i);
    }
  }
}
