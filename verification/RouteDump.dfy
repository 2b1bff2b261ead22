/** Splitting a routing-table dump into its messages (platform/routes_macos.rs, `dump_routes`). */
module RouteDump {
  import opened Bytes
  import opened Results
  import opened RoutingMessage
  import opened RouteSnapshot
  import opened RoutePath

  /** A message the kernel can place in a dump: sized by its own length field, of the expected version, parseable. */
  predicate WellFormed(m: Snapshot)
  {
    |m| >= HEADER && Length(m) == |m| && m[2] == RTM_VERSION && Parse(m).Ok?
  }

  /** The destination is an IPv4 or IPv6 address. */
  predicate IsInternet(m: Snapshot)
    requires Parse(m).Ok?
  {
    var dst := Parse(m).value.slots[DST];
    dst.Some? && Family(dst.value) in {Some(AF_INET), Some(AF_INET6)}
  }

  /** A dump keeps exactly the routes that can be keyed, so a lookup by key never fails on one. */
  lemma InternetIffKeyed(m: Snapshot)
    requires Parse(m).Ok?
    ensures IsInternet(m) <==> Key(m).Ok?
  {
    hide Parse;
  }

  /** The message at the front of `bytes`, if it is well formed. */
  function FirstMessage(bytes: Bytes): Result<Snapshot>
  {
    if |bytes| < HEADER then Err
    else
      var length := Length(bytes);
      if length < HEADER || length > |bytes| || bytes[2] != RTM_VERSION || Parse(bytes[..length]).Err? then Err
      else Ok(bytes[..length])
  }

  function Split(bytes: Bytes): Result<seq<Snapshot>>
  {
    if bytes == [] then Ok([])
    else
      var first := FirstMessage(bytes);
      if first.Err? || |first.value| == 0 then Err
      else
        var rest := Split(bytes[|first.value|..]);
        if rest.Err? then Err
        else if IsInternet(first.value) then Ok([first.value] + rest.value)
        else rest
  }

  function After(routes: seq<Snapshot>, rest: Result<seq<Snapshot>>): Result<seq<Snapshot>>
  {
    if rest.Err? then Err else Ok(routes + rest.value)
  }

  lemma AfterNothing(rest: Result<seq<Snapshot>>)
    ensures After([], rest) == rest
  {
    if rest.Ok? {
      assert [] + rest.value == rest.value;
    }
  }

  lemma SplitStep(routes: seq<Snapshot>, bytes: Bytes, first: Snapshot)
    requires bytes != [] && FirstMessage(bytes) == Ok(first) && first != []
    ensures var routes' := if IsInternet(first) then routes + [first] else routes;
            After(routes, Split(bytes)) == After(routes', Split(bytes[|first|..]))
  {
    var rest := Split(bytes[|first|..]);
    if rest.Ok? && IsInternet(first) {
      assert routes + ([first] + rest.value) == routes + [first] + rest.value;
    }
  }

  /** The checks `dump_routes` makes on the message at one offset. */
  method MessageAt(bytes: Bytes, offset: nat) returns (result: Result<Snapshot>)
    requires offset < |bytes|
    ensures result == FirstMessage(bytes[offset..])
    ensures result.Ok? ==> HEADER <= |result.value| <= |bytes| - offset && Parse(result.value).Ok?
  {
    hide Length, Addresses, Index, Flags;
    ghost var tail := bytes[offset..];
    if |bytes| - offset < HEADER {
      return Err;
    }
    var length := Length(bytes[offset..]);
    if length < HEADER || length > |bytes| - offset {
      return Err;
    }
    if bytes[offset + 2] != RTM_VERSION {
      return Err;
    }
    var message := bytes[offset..offset + length];
    assert message == tail[..length];
    var attrs := ReadAddresses(message);
    if attrs.Err? {
      return Err;
    }
    result := Ok(message);
  }

  /** The loop of `dump_routes` over one buffer. */
  method SplitDump(bytes: Bytes) returns (result: Result<seq<Snapshot>>)
    ensures result == Split(bytes)
  {
    hide FirstMessage, IsInternet, Parse;
    var routes: seq<Snapshot> := [];
    var offset := 0;
    AfterNothing(Split(bytes));
    assert bytes[0..] == bytes;
    while offset < |bytes|
      invariant 0 <= offset <= |bytes|
      invariant Split(bytes) == After(routes, Split(bytes[offset..]))
      decreases |bytes| - offset
    {
      var message := MessageAt(bytes, offset);
      if message.Err? {
        return Err;
      }
      SplitStep(routes, bytes[offset..], message.value);
      assert bytes[offset..][|message.value|..] == bytes[offset + |message.value|..];
      if IsInternet(message.value) {
        routes := routes + [message.value];
      }
      offset := offset + |message.value|;
    }
    assert bytes[offset..] == [] && routes + [] == routes;
    result := Ok(routes);
  }

  function InternetOnly(messages: seq<Snapshot>): seq<Snapshot>
    requires forall i :: 0 <= i < |messages| ==> WellFormed(messages[i])
  {
    if messages == [] then []
    else
      var first := messages[0];
      assert WellFormed(first);
      if IsInternet(first) then [first] + InternetOnly(messages[1..]) else InternetOnly(messages[1..])
  }

  lemma LengthOfFront(m: Bytes, rest: Bytes)
    requires |m| >= 2
    ensures Length(m + rest) == Length(m)
  {
    assert (m + rest)[0] == m[0] && (m + rest)[1] == m[1];
  }

  lemma FirstOfConcat(m: Snapshot, rest: Bytes)
    requires WellFormed(m)
    ensures FirstMessage(m + rest) == Ok(m)
  {
    var bytes := m + rest;
    LengthOfFront(m, rest);
    assert bytes[2] == m[2] && bytes[..|m|] == m;
  }

  /** Completeness: a concatenation of well-formed messages yields its IPv4 and IPv6 messages in order. */
  lemma {:induction false} SplitConcat(messages: seq<Snapshot>)
    requires forall i :: 0 <= i < |messages| ==> WellFormed(messages[i])
    ensures Split(Concat(messages)) == Ok(InternetOnly(messages))
  {
    if messages != [] {
      var first, rest := messages[0], Concat(messages[1..]);
      assert WellFormed(first);
      FirstOfConcat(first, rest);
      assert (first + rest)[|first|..] == rest;
      SplitConcat(messages[1..]);
    }
  }

  /** Soundness: whatever is returned comes from a decomposition into well-formed messages. */
  lemma {:induction false} SplitSound(bytes: Bytes) returns (messages: seq<Snapshot>)
    requires Split(bytes).Ok?
    ensures forall i :: 0 <= i < |messages| ==> WellFormed(messages[i])
    ensures Concat(messages) == bytes
    ensures Split(bytes).value == InternetOnly(messages)
    decreases |bytes|
  {
    if bytes == [] {
      messages := [];
    } else {
      var first := FirstMessage(bytes).value;
      LengthOfFront(first, bytes[|first|..]);
      assert bytes == first + bytes[|first|..];
      var rest := SplitSound(bytes[|first|..]);
      messages := [first] + rest;
      assert messages[1..] == rest;
    }
  }

  /** A request made from a route of the expected version can itself appear in a dump. */
  lemma RequestsAreWellFormed(s: Snapshot, operation: bv8)
    requires Message(s, operation).Ok? && s[2] == RTM_VERSION
    ensures WellFormed(Message(s, operation).value)
  {
    MessageFields(s, operation);
  }
}
