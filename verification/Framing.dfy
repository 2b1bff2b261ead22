/** Length-prefixed frames between the library and the daemon (daemon/src/ipc/mod.rs, daemon/IpcProtocol.kt).
    A stream is what the peer delivers before it closes. */
module Framing {
  import opened Bytes
  import opened Results

  const MAX_FRAME_SIZE := 4 * 1024 * 1024

  type Stream = seq<Octet>

  /** Message encoding, as a pair of functions; decoding may refuse. */
  datatype Codec<!M> = Codec(encode: M -> Stream, decode: Stream -> Option<M>)

  ghost predicate Inverse<M(!new)>(c: Codec<M>)
  {
    forall m :: c.decode(c.encode(m)) == Some(m)
  }

  // --------------------------------------------------------------- headers

  function Header(n: nat): (h: Stream)
    requires n < 0x1_0000_0000
    ensures |h| == 4
  {
    [n / 0x100_0000, n / 0x1_0000 % 0x100, n / 0x100 % 0x100, n % 0x100]
  }

  /** `u32::from_be_bytes` */
  function Unsigned(h: Stream): nat
    requires |h| == 4
  {
    h[0] as int * 0x100_0000 + h[1] as int * 0x1_0000 + h[2] as int * 0x100 + h[3]
  }

  /** `DataInputStream.readInt`: the same 32 bits in two's complement. */
  function Signed(h: Stream): int
    requires |h| == 4
  {
    if Unsigned(h) < 0x8000_0000 then Unsigned(h) else Unsigned(h) - 0x1_0000_0000
  }

  /** The number a byte string denotes, most significant byte first: one more byte multiplies by 256 and adds. */
  function BigEndian(b: Stream): nat
  {
    if b == [] then 0 else BigEndian(b[..|b| - 1]) * 256 + b[|b| - 1]
  }

  /** Both readers read big-endian: the daemon the number itself, the client its two's complement in 32 bits. */
  lemma HeaderIsBigEndian(h: Stream)
    requires |h| == 4
    ensures Unsigned(h) == BigEndian(h)
    ensures -0x8000_0000 <= Signed(h) < 0x8000_0000 && (Signed(h) - BigEndian(h)) % 0x1_0000_0000 == 0
  {
    assert h[..3][..2] == h[..2] && h[..3][2] == h[2];
    assert h[..2][..1] == h[..1] && h[..2][1] == h[1];
    assert h[..1][..0] == [] && h[..1][0] == h[0];
    assert BigEndian(h[..1]) == h[0];
    assert BigEndian(h[..2]) == h[0] as int * 0x100 + h[1];
    assert BigEndian(h[..3]) == h[0] as int * 0x1_0000 + h[1] as int * 0x100 + h[2];
  }

  /** The header of every length reads back as that length, and every header is that of one length. */
  lemma HeaderRoundTrip(n: nat, h: Stream)
    requires n < 0x1_0000_0000 && |h| == 4
    ensures Unsigned(Header(n)) == n
    ensures Unsigned(h) < 0x1_0000_0000 && Header(Unsigned(h)) == h
  {
    assert n == n / 0x100 * 0x100 + n % 0x100;
    assert n / 0x100 == n / 0x1_0000 * 0x100 + n / 0x100 % 0x100;
    assert n / 0x1_0000 == n / 0x100_0000 * 0x100 + n / 0x1_0000 % 0x100;
    HeaderOfUnsigned(h);
  }

  lemma HeaderOfUnsigned(h: Stream)
    requires |h| == 4
    ensures Unsigned(h) < 0x1_0000_0000 && Header(Unsigned(h)) == h
  {
    var n := Unsigned(h);
    assert n / 0x100 == h[0] as int * 0x1_0000 + h[1] as int * 0x100 + h[2];
    assert n / 0x1_0000 == h[0] as int * 0x100 + h[1];
    assert n / 0x100_0000 == h[0];
  }

  /** `size == 0 || size > MAX_FRAME_SIZE` refuses, on the unsigned length. */
  predicate DaemonAccepts(h: Stream)
    requires |h| == 4
  {
    !(Unsigned(h) == 0 || Unsigned(h) > MAX_FRAME_SIZE)
  }

  /** `size in 1..MAX_FRAME_SIZE`, on the signed length. */
  predicate ClientAccepts(h: Stream)
    requires |h| == 4
  {
    1 <= Signed(h) <= MAX_FRAME_SIZE
  }

  /** The unsigned and the signed check accept the same headers, and then read the same length. */
  lemma SameHeadersAccepted(h: Stream)
    requires |h| == 4
    ensures DaemonAccepts(h) <==> ClientAccepts(h)
    ensures DaemonAccepts(h) ==> Unsigned(h) == Signed(h)
    ensures DaemonAccepts(h) <==> 1 <= BigEndian(h) <= 4_194_304
  {
    hide BigEndian;
    HeaderIsBigEndian(h);
  }

  // ---------------------------------------------------------------- frames

  /** What reading one frame comes to. */
  datatype Read<M> = Message(message: M) | End | Failed

  /** A frame at the start of `s`, and what is left of the stream. The daemon ends cleanly on an empty stream. */
  function Next<M>(c: Codec<M>, s: Stream): (Read<M>, Stream)
  {
    if s == [] then (End, [])
    else if |s| < 4 then (Failed, [])
    else if !DaemonAccepts(s[..4]) then (Failed, s[4..])
    else
      var size := Unsigned(s[..4]);
      if |s| - 4 < size then (Failed, [])
      else match c.decode(s[4..4 + size])
        case None => (Failed, s[4 + size..])
        case Some(m) => (Message(m), s[4 + size..])
  }

  function Frame(body: Stream): Stream
    requires |body| <= MAX_FRAME_SIZE
  {
    Header(|body|) + body
  }

  predicate Encodable<M>(c: Codec<M>, m: M)
  {
    1 <= |c.encode(m)| <= MAX_FRAME_SIZE
  }

  predicate AllEncodable<M>(c: Codec<M>, ms: seq<M>)
  {
    forall i :: 0 <= i < |ms| ==> Encodable(c, ms[i])
  }

  /** The bytes a peer still has to deliver. */
  class Input {
    var rest: Stream

    constructor (s: Stream)
      ensures rest == s
    {
      rest := s;
    }

    /** `read_exact`: on early end everything has been consumed. */
    method ReadExact(n: nat) returns (r: Option<Stream>)
      modifies this
      ensures |old(rest)| < n ==> r == None && rest == []
      ensures n <= |old(rest)| ==> r == Some(old(rest)[..n]) && rest == old(rest)[n..]
    {
      if |rest| < n {
        rest := [];
        return None;
      }
      r := Some(rest[..n]);
      rest := rest[n..];
    }

    /** `read_frame` of the daemon. */
    method ReadFrame<M>(c: Codec<M>) returns (r: Read<M>)
      modifies this
      ensures (r, rest) == Next(c, old(rest))
    {
      var s := rest;
      if rest == [] {
        return End;
      }
      var first := rest[0];
      rest := rest[1..];
      var others := ReadExact(3);
      if others.None? {
        return Failed;
      }
      var header := [first] + others.value;
      assert header == s[..4] && rest == s[4..];
      var size := Unsigned(header);
      if size == 0 || size > MAX_FRAME_SIZE {
        return Failed;
      }
      var body := ReadExact(size);
      if body.None? {
        return Failed;
      }
      assert body.value == s[4..4 + size] && rest == s[4 + size..];
      var m := c.decode(body.value);
      r := if m.None? then Failed else Message(m.value);
    }

    /** `readFrame` and decoding in the client: an empty stream is an error too. */
    method ReadFrameOrThrow<M>(c: Codec<M>) returns (r: Read<M>)
      modifies this
      ensures r == (if old(rest) == [] then Failed else Next(c, old(rest)).0) && rest == Next(c, old(rest)).1
    {
      var s := rest;
      var header := ReadExact(4);
      if header.None? {
        return Failed;
      }
      SameHeadersAccepted(header.value);
      var size := Signed(header.value);
      if !(1 <= size <= MAX_FRAME_SIZE) {
        return Failed;
      }
      var body := ReadExact(size);
      if body.None? {
        return Failed;
      }
      assert body.value == s[4..4 + size] && rest == s[4 + size..];
      var m := c.decode(body.value);
      r := if m.None? then Failed else Message(m.value);
    }
  }

  class Output {
    var sent: Stream

    constructor ()
      ensures sent == []
    {
      sent := [];
    }

    /** `write_frame`: nothing is sent of a message whose encoding is empty or too long. */
    method WriteFrame<M>(c: Codec<M>, m: M) returns (ok: bool)
      modifies this
      ensures ok == Encodable(c, m)
      ensures sent == old(sent) + if ok then Frame(c.encode(m)) else []
    {
      var bytes := c.encode(m);
      if bytes == [] || |bytes| > MAX_FRAME_SIZE {
        return false;
      }
      sent := sent + Header(|bytes|);
      sent := sent + bytes;
      ok := true;
    }
  }

  // --------------------------------------------------------------- streams

  /** The messages of a stream up to its end or its first error. */
  function ReadAll<M>(c: Codec<M>, s: Stream): (seq<M>, Read<M>)
    decreases |s|
  {
    var (r, rest) := Next(c, s);
    if r.Message? then
      var (ms, end) := ReadAll(c, rest);
      ([r.message] + ms, end)
    else ([], r)
  }

  function WriteAll<M>(c: Codec<M>, ms: seq<M>): Stream
    requires AllEncodable(c, ms)
  {
    if ms == [] then []
    else
      assert Encodable(c, ms[0]);
      Frame(c.encode(ms[0])) + WriteAll(c, ms[1..])
  }

  /** A frame is read back whatever follows it. */
  lemma NextOfFrame<M(!new)>(c: Codec<M>, m: M, more: Stream)
    requires Inverse(c) && Encodable(c, m)
    ensures Next(c, Frame(c.encode(m)) + more) == (Message(m), more)
  {
    var body := c.encode(m);
    var s := Frame(body) + more;
    HeaderRoundTrip(|body|, Header(|body|));
    assert s[..4] == Header(|body|);
    assert s[4..4 + |body|] == body;
    assert s[4 + |body|..] == more;
  }

  /** A frame cut short gives no message. */
  lemma NextOfPartialFrame<M>(c: Codec<M>, m: M, k: nat)
    requires Encodable(c, m) && k < |Frame(c.encode(m))|
    ensures Next(c, Frame(c.encode(m))[..k]).0 == if k == 0 then End else Failed
  {
    var body := c.encode(m);
    if k >= 4 {
      HeaderRoundTrip(|body|, Header(|body|));
      assert Frame(body)[..k][..4] == Header(|body|);
    }
  }

  lemma ReadAllOfMessage<M>(c: Codec<M>, s: Stream, m: M, rest: Stream)
    requires Next(c, s) == (Message(m), rest)
    ensures ReadAll(c, s) == ([m] + ReadAll(c, rest).0, ReadAll(c, rest).1)
  {}

  /** Writing any list of encodable messages and reading until the end gives the same list and a clean end. */
  lemma {:induction false} ReadAllWriteAll<M(!new)>(c: Codec<M>, ms: seq<M>)
    requires Inverse(c) && AllEncodable(c, ms)
    ensures ReadAll(c, WriteAll(c, ms)) == (ms, End)
  {
    if ms != [] {
      assert Encodable(c, ms[0]);
      var rest := WriteAll(c, ms[1..]);
      NextOfFrame(c, ms[0], rest);
      ReadAllOfMessage(c, Frame(c.encode(ms[0])) + rest, ms[0], rest);
      ReadAllWriteAll(c, ms[1..]);
      assert ms == [ms[0]] + ms[1..];
    }
  }

  /** `j` messages are complete in the first `k` bytes, and no more. */
  predicate CompleteWithin<M>(c: Codec<M>, ms: seq<M>, j: nat, k: nat)
    requires AllEncodable(c, ms)
  {
    j < |ms| && |WriteAll(c, ms[..j])| <= k < |WriteAll(c, ms[..j + 1])|
  }

  /** A truncated stream gives a proper prefix of the messages: those that are complete in it. It ends cleanly exactly
      when it is cut between two frames. */
  lemma {:induction false} ReadAllTruncated<M(!new)>(c: Codec<M>, ms: seq<M>, k: nat) returns (j: nat)
    requires Inverse(c) && AllEncodable(c, ms)
    requires k < |WriteAll(c, ms)|
    ensures CompleteWithin(c, ms, j, k)
    ensures ReadAll(c, WriteAll(c, ms)[..k]) == (ms[..j], if k == |WriteAll(c, ms[..j])| then End else Failed)
    decreases |ms|
  {
    hide Next, ReadAll, Frame, Inverse, Encodable;
    assert Encodable(c, ms[0]);
    var size := |c.encode(ms[0])| + 4;
    FrameSize(c, ms[0]);
    if k < size {
      j := 0;
      CutInFirst(c, ms, k);
    } else {
      var i := ReadAllTruncated(c, ms[1..], k - size);
      j := i + 1;
      CutLater(c, ms, k);
      WriteAllOfCons(c, ms, j);
      WriteAllOfCons(c, ms, j + 1);
      assert ms[..j] == [ms[0]] + ms[1..][..i];
    }
  }

  lemma FrameSize<M>(c: Codec<M>, m: M)
    requires Encodable(c, m)
    ensures |Frame(c.encode(m))| == |c.encode(m)| + 4
  {}

  lemma CutInFirst<M>(c: Codec<M>, ms: seq<M>, k: nat)
    requires AllEncodable(c, ms) && ms != [] && k < |c.encode(ms[0])| + 4
    ensures |WriteAll(c, ms[..1])| == |c.encode(ms[0])| + 4 && |WriteAll(c, ms[..0])| == 0 && k <= |WriteAll(c, ms)|
    ensures ReadAll(c, WriteAll(c, ms)[..k]) == ([], if k == 0 then End else Failed)
  {
    assert Encodable(c, ms[0]);
    WriteAllOfCons(c, ms, 1);
    NextOfPartialFrame(c, ms[0], k);
    assert WriteAll(c, ms)[..k] == Frame(c.encode(ms[0]))[..k];
  }

  lemma CutLater<M(!new)>(c: Codec<M>, ms: seq<M>, k: nat)
    requires Inverse(c) && AllEncodable(c, ms) && ms != [] && |c.encode(ms[0])| + 4 <= k <= |WriteAll(c, ms)|
    ensures var size := |c.encode(ms[0])| + 4;
            && k - size <= |WriteAll(c, ms[1..])|
            && var r := ReadAll(c, WriteAll(c, ms[1..])[..k - size]);
               ReadAll(c, WriteAll(c, ms)[..k]) == ([ms[0]] + r.0, r.1)
  {
    assert Encodable(c, ms[0]);
    var first := Frame(c.encode(ms[0]));
    var rest := WriteAll(c, ms[1..])[..k - |first|];
    assert WriteAll(c, ms)[..k] == first + rest;
    hide Next, ReadAll, WriteAll, Frame;
    NextOfFrame(c, ms[0], rest);
    ReadAllOfMessage(c, first + rest, ms[0], rest);
  }

  lemma WriteAllOfCons<M>(c: Codec<M>, ms: seq<M>, j: nat)
    requires AllEncodable(c, ms) && 0 < j <= |ms|
    ensures |WriteAll(c, ms[..j])| == |c.encode(ms[0])| + 4 + |WriteAll(c, ms[1..][..j - 1])|
  {
    assert Encodable(c, ms[0]);
    assert ms[..j][1..] == ms[1..][..j - 1];
  }
}
