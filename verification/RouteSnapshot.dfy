/** Snapshots of kernel routes: their key, their path and the request that recreates them (platform/routes_macos.rs). */
module RouteSnapshot {
  import opened Bytes
  import opened Results
  import opened RoutingMessage

  /** The raw routing message of one route. */
  type Snapshot = Bytes

  // ------------------------------------------------------------ header fields

  function Index(s: Snapshot): Bytes
    requires |s| >= HEADER
  {
    s[4..6]
  }

  function Flags(s: Snapshot): bv32
    requires |s| >= HEADER
  {
    Word(s[8..12])
  }

  function Addresses(s: Snapshot): Result<Slots>
    requires |s| >= HEADER
  {
    Decode(s[HEADER..], PresentIn(s[12]))
  }

  function Prepend(slots: Slots, rest: Result<Slots>): Result<Slots>
  {
    if rest.Err? then Err else Ok(slots + rest.value)
  }

  lemma PrependNothing(rest: Result<Slots>)
    ensures Prepend([], rest) == rest
  {
    if rest.Ok? {
      assert [] + rest.value == rest.value;
    }
  }

  lemma PrependMore(slots: Slots, slot: Option<Bytes>, rest: Result<Slots>)
    ensures Prepend(slots, Prepend([slot], rest)) == Prepend(slots + [slot], rest)
  {
    if rest.Ok? {
      assert slots + ([slot] + rest.value) == slots + [slot] + rest.value;
    }
  }

  lemma DecodeSkips(tail: Bytes, present: seq<bool>, index: nat)
    requires index < |present| && !present[index]
    ensures Decode(tail, present[index..]) == Prepend([None], Decode(tail, present[index + 1..]))
  {
    assert present[index..][1..] == present[index + 1..];
  }

  lemma DecodeFirst(tail: Bytes, present: seq<bool>)
    requires tail != [] && present != [] && present[0]
    ensures var length := tail[0] as int;
            Decode(tail, present) == if Step(length) > |tail| then Err
                                     else Prepend([Some(tail[..length])], Decode(tail[Step(length)..], present[1..]))
  {
    hide Step;
  }

  lemma DecodeReads(bytes: Bytes, offset: nat, present: seq<bool>, index: nat)
    requires index < |present| && present[index] && offset < |bytes|
    ensures var length := bytes[offset] as int;
            Decode(bytes[offset..], present[index..])
            == if offset + Step(length) > |bytes| then Err
               else Prepend([Some(bytes[offset..offset + length])], Decode(bytes[offset + Step(length)..], present[index + 1..]))
  {
    hide Step, Decode, Prepend;
    var tail := bytes[offset..];
    DecodeFirst(tail, present[index..]);
    SlicesOfTail(bytes, offset, tail[0] as int, Step(tail[0] as int));
    assert present[index..][1..] == present[index + 1..];
  }

  lemma SlicesOfTail(bytes: Bytes, offset: nat, length: nat, step: nat)
    requires offset <= |bytes| && length <= step
    ensures offset + step <= |bytes| ==> bytes[offset..][..length] == bytes[offset..offset + length]
    ensures offset + step <= |bytes| ==> bytes[offset..][step..] == bytes[offset + step..]
  {}

  lemma DecodeRunsOut(present: seq<bool>, index: nat)
    requires index < |present| && present[index]
    ensures Decode([], present[index..]) == Err
  {}

  /** `addresses`: one pass over the slots with a moving offset. */
  method ReadAddresses(bytes: Snapshot) returns (result: Result<Slots>)
    requires |bytes| >= HEADER
    ensures result == Addresses(bytes)
  {
    hide PresentIn, Decode;
    var present := PresentIn(bytes[12]);
    var slots: Slots := [];
    var offset := HEADER;
    PrependNothing(Addresses(bytes));
    assert present[0..] == present;
    for index := 0 to SLOTS
      invariant HEADER <= offset <= |bytes|
      invariant Addresses(bytes) == Prepend(slots, Decode(bytes[offset..], present[index..]))
    {
      if !present[index] {
        DecodeSkips(bytes[offset..], present, index);
        PrependMore(slots, None, Decode(bytes[offset..], present[index + 1..]));
        slots := slots + [None];
        continue;
      }
      if offset == |bytes| {
        assert bytes[offset..] == [];
        DecodeRunsOut(present, index);
        return Err;
      }
      var length := bytes[offset] as int;
      var step := Step(length);
      DecodeReads(bytes, offset, present, index);
      if offset + step > |bytes| {
        return Err;
      }
      PrependMore(slots, Some(bytes[offset..offset + length]), Decode(bytes[offset + step..], present[index + 1..]));
      slots := slots + [Some(bytes[offset..offset + length])];
      offset := offset + step;
    }
    DecodeNothing(bytes[offset..]);
    assert present[SLOTS..] == [];
    assert slots + [] == slots;
    result := Ok(slots);
  }

  lemma DecodeNothing(tail: Bytes)
    ensures Decode(tail, []) == Ok([])
  {}

  // ---------------------------------------------------------------- requests

  /** `sockaddr_dl` naming only the interface. */
  function LinkAddress(index: Bytes): (a: Bytes)
    requires |index| == 2
    ensures |a| == 20 && SelfSized(a) && a[1] == AF_LINK && a[2..4] == index
  {
    [20, AF_LINK] + index + Zeros(16)
  }

  /** The `field!` macro: overwrites bytes in place. */
  function Put(b: Bytes, at: nat, value: Bytes): (r: Bytes)
    requires at + |value| <= |b|
    ensures |r| == |b|
    ensures forall i :: 0 <= i < |b| ==> r[i] == if at <= i < at + |value| then value[i - at] else b[i]
  {
    b[..at] + value + b[at + |value|..]
  }

  /** The header of a request: length, type, errno, presence bits, flags and metric bits are replaced. */
  function RequestHeader(h: Bytes, total: nat, operation: bv8, addrs: bv8): (r: Bytes)
    requires |h| == HEADER && total < 0x1_0000
    ensures |r| == HEADER
  {
    var b1 := Put(h, 0, LengthBytes(total));
    var b2 := Put(b1, 3, [operation]);
    var b3 := Put(b2, 24, Zeros(4));
    var b4 := Put(b3, 12, [addrs, 0, 0, 0]);
    var b5 := Put(b4, 8, WordBytes(Word(h[8..12]) & !STATUS_FLAGS));
    Put(b5, 32, WordBytes(if operation == RTM_ADD then ALL_METRICS else 0))
  }

  function RequestSlots(s: Snapshot): (slots: Slots)
    requires |s| >= HEADER && Addresses(s).Ok?
    ensures |slots| == SLOTS && WellFormedSlots(slots)
  {
    DecodedAreWellFormed(s[HEADER..], PresentIn(s[12]));
    Addresses(s).value[IFP := Some(LinkAddress(Index(s)))]
  }

  /** `Snapshot::message` */
  function Message(s: Snapshot, operation: bv8): Result<Bytes>
  {
    if |s| < HEADER then Err
    else if Index(s) == [0, 0] then Err
    else if Flags(s) & RTF_PROXY != 0 then Err
    else if Addresses(s).Err? then Err
    else
      Assemble(s[..HEADER], RequestSlots(s), operation)
  }

  function Assemble(head: Bytes, slots: Slots, operation: bv8): Result<Bytes>
    requires |head| == HEADER && |slots| == SLOTS
  {
    var body := Encode(slots);
    if HEADER + |body| >= 0x1_0000 then Err
    else Ok(RequestHeader(head, HEADER + |body|, operation, AddrsOf(Present(slots))) + body)
  }

  lemma {:induction false} EncodeSnoc(slots: Slots, n: nat)
    requires n < |slots|
    ensures Encode(slots[..n + 1]) == Encode(slots[..n]) + (if slots[n].Some? then Padded(slots[n].value) else [])
  {
    hide Padded;
    if n == 0 {
      assert slots[..1][1..] == [] && slots[..0] == [];
    } else {
      EncodeSnoc(slots[1..], n - 1);
      assert slots[..n + 1][1..] == slots[1..][..n];
      assert slots[..n][1..] == slots[1..][..n - 1];
      assert slots[..n][0] == slots[..n + 1][0] == slots[0] && slots[1..][n - 1] == slots[n];
    }
  }

  lemma PutInHead(h: Bytes, body: Bytes, at: nat, value: Bytes)
    requires at + |value| <= |h|
    ensures Put(h + body, at, value) == Put(h, at, value) + body
  {}

  /** The header writes of `message`, in their order. */
  method WriteHeader(head: Bytes, body: Bytes, operation: bv8, addrs: bv8) returns (bytes: Bytes)
    requires |head| == HEADER && HEADER + |body| < 0x1_0000
    ensures bytes == RequestHeader(head, HEADER + |body|, operation, addrs) + body
  {
    var flags := Word(head[8..12]) & !STATUS_FLAGS;
    var inits := if operation == RTM_ADD then ALL_METRICS else 0;
    ghost var h := head;
    bytes := head + body;
    PutInHead(h, body, 0, LengthBytes(|bytes|));
    h := Put(h, 0, LengthBytes(|bytes|));
    bytes := Put(bytes, 0, LengthBytes(|bytes|));
    PutInHead(h, body, 3, [operation]);
    h := Put(h, 3, [operation]);
    bytes := Put(bytes, 3, [operation]);
    PutInHead(h, body, 24, Zeros(4));
    h := Put(h, 24, Zeros(4));
    bytes := Put(bytes, 24, Zeros(4));
    PutInHead(h, body, 12, [addrs, 0, 0, 0]);
    h := Put(h, 12, [addrs, 0, 0, 0]);
    bytes := Put(bytes, 12, [addrs, 0, 0, 0]);
    PutInHead(h, body, 8, WordBytes(flags));
    h := Put(h, 8, WordBytes(flags));
    bytes := Put(bytes, 8, WordBytes(flags));
    PutInHead(h, body, 32, WordBytes(inits));
    bytes := Put(bytes, 32, WordBytes(inits));
  }

  lemma AddrsSnoc(present: seq<bool>, n: nat)
    requires n < |present| == SLOTS
    ensures AddrsOf(present[..n + 1]) == if present[n] then AddrsOf(present[..n]) | Single(7 - n) else AddrsOf(present[..n])
  {
    hide Single;
    assert present[..n + 1][..n] == present[..n];
  }

  /** The slot loop of `message`: appends every present address and collects its bit. */
  method AppendSlots(head: Bytes, slots: Slots) returns (bytes: Bytes, addrs: bv8)
    requires |slots| == SLOTS
    ensures bytes == head + Encode(slots)
    ensures addrs == AddrsOf(Present(slots))
  {
    bytes, addrs := head, 0;
    for index := 0 to SLOTS
      invariant bytes == head + Encode(slots[..index])
      invariant addrs == AddrsOf(Present(slots)[..index])
    {
      EncodeSnoc(slots, index);
      AddrsSnoc(Present(slots), index);
      if slots[index].Some? {
        assert head + Encode(slots[..index]) + Padded(slots[index].value) == head + (Encode(slots[..index]) + Padded(slots[index].value));
        addrs := addrs | Single(7 - index);
        bytes := Append(bytes, slots[index].value);
      }
    }
    assert slots[..SLOTS] == slots && Present(slots)[..SLOTS] == Present(slots);
  }

  /** `Snapshot::message` as the source runs it: the slots one by one, then the header fields. */
  method BuildMessage(s: Snapshot, operation: bv8) returns (result: Result<Bytes>)
    ensures result == Message(s, operation)
  {
    hide PresentIn, Encode, Decode, Present, AddrsOf, RequestHeader;
    if |s| < HEADER || Index(s) == [0, 0] || Flags(s) & RTF_PROXY != 0 {
      return Err;
    }
    var attrs := ReadAddresses(s);
    if attrs.Err? {
      return Err;
    }
    DecodedAreWellFormed(s[HEADER..], PresentIn(s[12]));
    var slots := attrs.value[IFP := Some(LinkAddress(Index(s)))];
    var bytes, addrs := AppendSlots(s[..HEADER], slots);
    if |bytes| >= 0x1_0000 {
      return Err;
    }
    assert bytes[..HEADER] == s[..HEADER] && bytes[HEADER..] == Encode(slots);
    bytes := WriteHeader(bytes[..HEADER], bytes[HEADER..], operation, addrs);
    result := Ok(bytes);
  }
}
