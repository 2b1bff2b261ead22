/** Waiting for the answer to a routing request (platform/endpoint_macos.rs, `exchange`). */
module RoutingReply {
  import opened Bytes
  import opened Results
  import opened RoutingMessage
  import opened RouteSnapshot

  /** What identifies the reply to a request: its type, and the process and sequence fields as raw bytes. */
  datatype Request = Request(operation: bv8, pid: Bytes, sequence: Bytes)

  datatype Answer =
    | Reply(message: Snapshot)
    | Refused(errno: Bytes)  // the kernel's error code
    | Malformed
    | Nothing                // no reply among these messages

  /** A message that fits a read: sized by its own length field. */
  predicate Sized(m: Bytes)
  {
    |m| >= 4 && Length(m) == |m|
  }

  /** Has the expected version and the type of the request. */
  predicate OfType(m: Bytes, request: Request)
    requires |m| >= 4
  {
    m[2] == RTM_VERSION && m[3] == request.operation
  }

  predicate Ours(m: Bytes, request: Request)
    requires |m| >= HEADER
  {
    OfType(m, request) && m[16..20] == request.pid && m[20..24] == request.sequence
  }

  /** A notification, or the answer to somebody else's request. */
  predicate Unrelated(m: Bytes, request: Request)
  {
    Sized(m) && (!OfType(m, request) || (|m| >= HEADER && !Ours(m, request)))
  }

  predicate AllUnrelated(messages: seq<Bytes>, request: Request)
  {
    forall i :: 0 <= i < |messages| ==> Unrelated(messages[i], request)
  }

  /** The answer that a message with our identity carries. */
  function AnswerIn(m: Bytes): Answer
    requires |m| >= HEADER
  {
    if m[24..28] != Zeros(4) then Refused(m[24..28]) else Reply(m)
  }

  /** The scan of one read. */
  function Scan(bytes: Bytes, request: Request): Answer
  {
    if bytes == [] then Nothing
    else if |bytes| < 4 then Malformed
    else
      var length := Length(bytes);
      if length < 4 || length > |bytes| then Malformed
      else
        var m := bytes[..length];
        if !OfType(m, request) then Scan(bytes[length..], request)
        else if length < HEADER then Malformed
        else if Ours(m, request) then AnswerIn(m)
        else Scan(bytes[length..], request)
  }

  lemma LengthOfTail(bytes: Bytes, offset: nat)
    requires offset + 2 <= |bytes|
    ensures Length(bytes[offset..]) == Length(bytes[offset..offset + 2])
  {
    assert bytes[offset..][0] == bytes[offset..offset + 2][0] && bytes[offset..][1] == bytes[offset..offset + 2][1];
  }

  /** The loop of `exchange` over one read, with a moving offset. */
  method ScanRead(bytes: Bytes, request: Request) returns (answer: Answer)
    ensures answer == Scan(bytes, request)
  {
    hide Ours, OfType, AnswerIn, Length;
    var offset := 0;
    assert bytes[0..] == bytes;
    while offset < |bytes|
      invariant 0 <= offset <= |bytes|
      invariant Scan(bytes, request) == Scan(bytes[offset..], request)
    {
      ghost var rest := bytes[offset..];
      if |bytes| - offset < 4 {
        return Malformed;
      }
      LengthOfTail(bytes, offset);
      var length := Length(bytes[offset..offset + 2]);
      if length < 4 || length > |bytes| - offset {
        return Malformed;
      }
      var m := bytes[offset..offset + length];
      assert m == rest[..length] && bytes[offset + length..] == rest[length..];
      if OfType(m, request) {
        if length < HEADER {
          return Malformed;
        }
        if Ours(m, request) {
          return AnswerIn(m);
        }
      }
      offset := offset + length;
    }
    answer := Nothing;
  }

  lemma ScanSkips(m: Bytes, rest: Bytes, request: Request)
    requires Unrelated(m, request)
    ensures Scan(m + rest, request) == Scan(rest, request)
  {
    hide AnswerIn, Length;
    FrontOf(m, rest);
  }

  lemma FrontOf(m: Bytes, rest: Bytes)
    requires |m| >= 4
    ensures Length(m + rest) == Length(m) && (m + rest)[..|m|] == m && (m + rest)[|m|..] == rest
  {
    assert (m + rest)[0] == m[0] && (m + rest)[1] == m[1];
  }

  lemma ScanStops(m: Bytes, rest: Bytes, request: Request)
    requires Sized(m) && |m| >= HEADER && Ours(m, request)
    ensures Scan(m + rest, request) == AnswerIn(m)
  {
    hide AnswerIn, Length;
    FrontOf(m, rest);
  }

  /** Completeness: behind any number of unrelated messages the reply is found, whatever follows it. */
  lemma {:induction false} ReplyIsFound(before: seq<Bytes>, m: Bytes, rest: Bytes, request: Request)
    requires AllUnrelated(before, request) && Sized(m) && |m| >= HEADER && Ours(m, request)
    ensures Scan(Concat(before) + (m + rest), request) == AnswerIn(m)
  {
    hide Scan, Ours, AnswerIn, Length, Unrelated;
    if before == [] {
      ScanStops(m, rest, request);
      assert Concat(before) + (m + rest) == m + rest;
    } else {
      ReplyIsFound(before[1..], m, rest, request);
      ScanSkips(before[0], Concat(before[1..]) + (m + rest), request);
      assert Concat(before) + (m + rest) == before[0] + (Concat(before[1..]) + (m + rest));
    }
  }

  /** Unrelated messages alone give no answer. */
  lemma {:induction false} NothingFound(messages: seq<Bytes>, request: Request)
    requires AllUnrelated(messages, request)
    ensures Scan(Concat(messages), request) == Nothing
  {
    hide Unrelated;
    if messages != [] {
      NothingFound(messages[1..], request);
      ScanSkips(messages[0], Concat(messages[1..]), request);
    }
  }

  /** Soundness: an answer comes from a message with our identity behind unrelated ones. */
  lemma {:induction false} AnswerIsOurs(bytes: Bytes, request: Request) returns (before: seq<Bytes>, m: Bytes, rest: Bytes)
    requires Scan(bytes, request).Reply? || Scan(bytes, request).Refused?
    ensures bytes == Concat(before) + (m + rest) && AllUnrelated(before, request)
    ensures Sized(m) && |m| >= HEADER && Ours(m, request) && Scan(bytes, request) == AnswerIn(m)
    decreases |bytes|
  {
    hide Ours, OfType, AnswerIn, Length, Concat, AllUnrelated;
    var length := Length(bytes);
    var first, tail := bytes[..length], bytes[length..];
    assert bytes == first + tail;
    FrontOf(first, tail);
    if OfType(first, request) && Ours(first, request) {
      before, m, rest := [], first, tail;
      NoneBefore(m + rest, request);
    } else {
      before, m, rest := AnswerIsOurs(tail, request);
      OneMoreBefore(first, before, m + rest, request);
      before := [first] + before;
    }
  }

  lemma NoneBefore(rest: Bytes, request: Request)
    ensures Concat([]) + rest == rest && AllUnrelated([], request)
  {}

  lemma OneMoreBefore(first: Bytes, before: seq<Bytes>, rest: Bytes, request: Request)
    requires Unrelated(first, request) && AllUnrelated(before, request)
    ensures Concat([first] + before) + rest == first + (Concat(before) + rest)
    ensures AllUnrelated([first] + before, request)
  {
    hide Unrelated;
    assert ([first] + before)[1..] == before;
  }

  /** The reads that arrive before the deadline; an empty one means the socket was closed. */
  method Await(received: seq<Bytes>, request: Request) returns (reply: Result<Snapshot>)
    ensures reply.Ok? <==> exists i :: 0 <= i < |received| && FirstAnswer(received, i, request) && Scan(received[i], request).Reply?
    ensures reply.Ok? ==> |reply.value| >= HEADER && Ours(reply.value, request) && reply.value[24..28] == Zeros(4)
  {
    for i := 0 to |received|
      invariant forall j :: 0 <= j < i ==> received[j] != [] && Scan(received[j], request) == Nothing
    {
      if received[i] == [] {
        return Err;
      }
      var answer := ScanRead(received[i], request);
      if answer != Nothing {
        if answer.Reply? {
          assert FirstAnswer(received, i, request);
          ghost var before, m, rest := AnswerIsOurs(received[i], request);
          return Ok(answer.message);
        }
        return Err;
      }
    }
    return Err;
  }

  /** Read `i` is the first that settles the exchange. */
  predicate FirstAnswer(received: seq<Bytes>, i: int, request: Request)
    requires 0 <= i < |received|
  {
    (received[i] == [] || Scan(received[i], request) != Nothing)
    && forall j :: 0 <= j < i ==> received[j] != [] && Scan(received[j], request) == Nothing
  }

  // ------------------------------------------------------------------ stamping

  /** The message as it is sent: with the process and the sequence number of this exchange. */
  function Stamped(message: Bytes, pid: Bytes, sequence: Bytes): (m: Bytes)
    requires |message| >= HEADER && |pid| == 4 && |sequence| == 4
    ensures |m| == |message|
  {
    Put(Put(message, 16, pid), 20, sequence)
  }

  /** Only the two fields change, and a message of the expected version is ours exactly when it has the type of the request
      and echoes both fields. */
  lemma EchoIsOurs(message: Bytes, pid: Bytes, sequence: Bytes, m: Bytes)
    requires |message| >= HEADER && |pid| == 4 && |sequence| == 4 && |m| >= HEADER && m[2] == RTM_VERSION
    ensures var sent := Stamped(message, pid, sequence);
            && sent[..16] == message[..16] && sent[24..] == message[24..]
            && (Ours(m, Request(message[3], pid, sequence)) <==> m[3] == sent[3] && m[16..24] == sent[16..24])
  {
    var sent := Stamped(message, pid, sequence);
    assert sent[16..20] == pid && sent[20..24] == sequence;
    assert sent[16..24] == pid + sequence;
    assert m[16..24] == m[16..20] + m[20..24];
    assert m[16..20] == m[16..24][..4] && m[20..24] == m[16..24][4..];
  }

  /** `exchange`: stamps the message, sends it and waits. A reply answers what was sent. */
  method Exchange(message: Bytes, pid: Bytes, sequence: Bytes, received: seq<Bytes>) returns (sent: Bytes, reply: Result<Snapshot>)
    requires |message| >= HEADER && |pid| == 4 && |sequence| == 4
    ensures sent == Stamped(message, pid, sequence)
    ensures reply.Ok? ==> |reply.value| >= HEADER && reply.value[2] == RTM_VERSION && reply.value[3] == sent[3]
    ensures reply.Ok? ==> reply.value[16..24] == sent[16..24] && reply.value[24..28] == Zeros(4)
    ensures reply.Ok? <==> exists i :: 0 <= i < |received| && FirstAnswer(received, i, Request(message[3], pid, sequence))
                                       && Scan(received[i], Request(message[3], pid, sequence)).Reply?
  {
    hide Scan, Put;
    var operation := message[3];
    sent := Put(message, 16, pid);
    sent := Put(sent, 20, sequence);
    reply := Await(received, Request(operation, pid, sequence));
    if reply.Ok? {
      assert OfType(reply.value, Request(operation, pid, sequence));
      EchoIsOurs(message, pid, sequence, reply.value);
    }
  }
}
