/** What a running session does with packets, over every run of the protocol (server.rs). */
module SessionTraffic {
  import opened SessionProtocol
  import opened SessionRuns

  // --------------------------------------------------------------- one packet

  /** A packet read while the client listens and the queue has room is queued for it, and the reader reads on. */
  lemma PacketIsQueued(x: Session, shutdown: bool, p: Packet)
    requires x.reader == Reading && !x.interrupted && !x.stopSent && x.receiving && |x.queue| < QUEUE_CAPACITY
    ensures MoveEnabled(x, shutdown, ReadPacket(p))
    ensures MoveEnabled(Moved(x, ReadPacket(p)), shutdown, SendCompletes)
    ensures Moved(Moved(x, ReadPacket(p)), SendCompletes) == x.(queue := x.queue + [Incoming(p)])
  {}

  /** A packet from the client that the loop takes reaches the device, and the loop goes on. */
  lemma PacketIsWritten(x: Session, p: Packet)
    requires x.phase == Looping && x.receiving && x.reader != Finished
    ensures MoveEnabled(x, false, BeginWrite(p))
    ensures MoveEnabled(Moved(x, BeginWrite(p)), false, WriteReturns)
    ensures Moved(Moved(x, BeginWrite(p)), WriteReturns) == x.(written := x.written + [p])
  {}

  /** A read that fails is told to a listening client, and ends the reader. */
  lemma FailureIsTold(x: Session, shutdown: bool)
    requires x.reader == Reading && !x.interrupted && !x.stopSent && x.receiving && |x.queue| < QUEUE_CAPACITY
    ensures MoveEnabled(x, shutdown, ReadFails)
    ensures MoveEnabled(Moved(x, ReadFails), shutdown, SendCompletes)
    ensures Moved(Moved(x, ReadFails), SendCompletes) == x.(queue := x.queue + [ReadError], reader := Finished)
  {}

  /** A listening client can take the oldest response at any time. */
  lemma ResponseCanBeTaken(x: Session, shutdown: bool)
    requires x.receiving && x.queue != []
    ensures MoveEnabled(x, shutdown, Consume)
    ensures x.queue == [x.queue[0]] + Moved(x, Consume).queue
  {}

  // ----------------------------------------------------------------- histories

  /** What happened to one session so far: responses its client took, packets its reader read, packets its loop took,
      and whether a read failed. */
  datatype History = History(consumed: seq<Response>, read: seq<Packet>, taken: seq<Packet>, failed: bool)

  const NOTHING := History([], [], [], false)

  /** The history of a session after its own move. */
  function After(x: Session, h: History, move: SessionStep): History
  {
    match move
    case ReadPacket(p) => h.(read := h.read + [p])
    case ReadFails => h.(failed := true)
    case BeginWrite(p) => h.(taken := h.taken + [p])
    case Consume => if x.queue != [] then h.(consumed := h.consumed + [x.queue[0]]) else h
    case _ => h
  }

  /** The history after one more step, from the step and the state it is made in. */
  function Recorded(h: History, s: System, step: Step, id: Id): History
  {
    if step.OfSession? && step.id == id && id in s.sessions then After(s.sessions[id], h, step.move) else h
  }

  function HistoryOf(states: seq<System>, steps: seq<Step>, n: nat, id: Id): History
    requires n <= |steps| < |states|
  {
    if n == 0 then NOTHING else Recorded(HistoryOf(states, steps, n - 1, id), states[n - 1], steps[n - 1], id)
  }

  /** The packets among some responses. */
  function Packets(responses: seq<Response>): seq<Packet>
  {
    if responses == [] then []
    else
      var before, last := Packets(responses[..|responses| - 1]), responses[|responses| - 1];
      if last.Incoming? then before + [last.packet] else before
  }

  lemma PacketsSnoc(responses: seq<Response>, r: Response)
    ensures Packets(responses + [r]) == if r.Incoming? then Packets(responses) + [r.packet] else Packets(responses)
  {
    assert (responses + [r])[..|responses|] == responses;
  }

  /** Everything queued so far, in order: what was taken from the queue and what is in it. */
  function Delivered(x: Session, h: History): seq<Response>
  {
    h.consumed + x.queue
  }

  // ----------------------------------------------------------------- invariant

  /** Packets from the TUN: those read are those delivered, except for the one being sent or given up. `lost` says that the
      session was stopped or its client is gone. */
  predicate ReaderAccounted(reader: Reader, lost: bool, interrupted: bool, packets: seq<Packet>, read: seq<Packet>, failed: bool)
  {
    match reader
    case NotSpawned => read == packets == [] && !failed
    case Reading => read == packets && !failed
    case Sending(Incoming(p)) => read == packets + [p] && !failed
    case Sending(r) => r == ReadError && read == packets && failed
    case Finished =>
      && (read == packets || (packets <= read && |read| == |packets| + 1 && !failed && lost))
      && (lost || interrupted || failed)
  }

  predicate Lost(x: Session)
  {
    x.stopSent || !x.receiving
  }

  predicate ReadsAccounted(x: Session, h: History)
  {
    ReaderAccounted(x.reader, Lost(x), x.interrupted, Packets(Delivered(x, h)), h.read, h.failed)
  }

  /** The write loop is over, or was never reached. */
  predicate PastLoop(phase: Phase)
  {
    phase in {Closing, Cleaning, Joining, Releasing, Released}
  }

  /** Packets from the client: those taken are those written, except for the one being written or refused. */
  predicate WriterAccounted(phase: Phase, written: seq<Packet>, taken: seq<Packet>)
  {
    if phase.Writing? then taken == written + [phase.packet]
    else if PastLoop(phase) then written <= taken && |taken| <= |written| + 1
    else taken == written
  }

  predicate WritesAccounted(x: Session, h: History)
  {
    WriterAccounted(x.phase, x.written, h.taken)
  }

  /** The client hears of the start before anything else. */
  predicate StartedFirst(x: Session, h: History)
  {
    var d := Delivered(x, h);
    && (x.started && d != [] ==> d[0] == Started)
    && (x.started && x.phase != Announcing && x.receiving ==> d != [])
    && (x.phase in {Reserved, Starting, Announcing} ==> d == [])
  }

  predicate Accounted(x: Session, h: History)
  {
    ReadsAccounted(x, h) && WritesAccounted(x, h) && StartedFirst(x, h)
  }

  lemma NewIsAccounted(name: string)
    ensures Accounted(NewSession(name), NOTHING)
  {
    assert Delivered(NewSession(name), NOTHING) == [];
  }

  lemma LostClientIsAccounted(x: Session, h: History)
    requires Accounted(x, h)
    ensures Accounted(x.(receiving := false), h)
  {
    assert Delivered(x.(receiving := false), h) == Delivered(x, h);
  }

  /** What a move adds to the responses: at most one, at the end. */
  function Added(x: Session, move: SessionStep): seq<Response>
  {
    match move
    case Announce => if x.receiving then [Started] else []
    case SendCompletes => if x.reader.Sending? then [x.reader.response] else []
    case StartFails => if x.receiving && |x.queue| < QUEUE_CAPACITY then [SessionError] else []
    case Report => if x.receiving && |x.queue| < QUEUE_CAPACITY then [SessionError] else []
    case _ => []
  }

  predicate IsReaderMove(move: SessionStep)
  {
    move.ReadPacket? || move.ReadFails? || move.ReadInterrupted? || move.SendCompletes? || move.SendGivesUp? || move.Announce?
  }

  predicate IsWriterMove(move: SessionStep)
  {
    move.BeginWrite? || move.WriteReturns? || move.LeaveLoop?
  }

  predicate IsEarlyMove(move: SessionStep)
  {
    move.AbortEarly? || move.BeginStart? || move.StartFails? || move.StartSucceeds? || move.Announce?
  }

  predicate IsLateMove(move: SessionStep)
  {
    move.CloseBegins? || move.CloseReturns? || move.JoinReader? || move.Report? || move.Release?
  }

  lemma QueueMoves(x: Session, shutdown: bool, move: SessionStep)
    requires MoveEnabled(x, shutdown, move)
    ensures Moved(x, move).queue == if move == Consume then x.queue[1..] else x.queue + Added(x, move)
  {
    assert x.queue + [] == x.queue;
    if Added(x, move) == [] && move != Consume {
      QueueStays(x, move);
    }
  }

  lemma QueueStays(x: Session, move: SessionStep)
    requires Added(x, move) == [] && move != Consume
    ensures Moved(x, move).queue == x.queue
  {
    hide Moved, Added;
    if IsReaderMove(move) {
      ReaderKeepsQueue(x, move);
    } else {
      TaskKeepsQueue(x, move);
    }
  }

  lemma ReaderKeepsQueue(x: Session, move: SessionStep)
    requires Added(x, move) == [] && IsReaderMove(move)
    ensures Moved(x, move).queue == x.queue
  {}

  lemma TaskKeepsQueue(x: Session, move: SessionStep)
    requires Added(x, move) == [] && !IsReaderMove(move) && move != Consume
    ensures Moved(x, move).queue == x.queue
  {
    hide Moved, Added;
    if IsWriterMove(move) {
      WriterKeepsQueue(x, move);
    } else if IsEarlyMove(move) {
      EarlyKeepsQueue(x, move);
    } else {
      LateKeepsQueue(x, move);
    }
  }

  lemma WriterKeepsQueue(x: Session, move: SessionStep)
    requires IsWriterMove(move)
    ensures Moved(x, move).queue == x.queue
  {}

  lemma EarlyKeepsQueue(x: Session, move: SessionStep)
    requires Added(x, move) == [] && IsEarlyMove(move) && !IsReaderMove(move)
    ensures Moved(x, move).queue == x.queue
  {}

  lemma LateKeepsQueue(x: Session, move: SessionStep)
    requires Added(x, move) == [] && IsLateMove(move)
    ensures Moved(x, move).queue == x.queue
  {}

  lemma HistoryMoves(x: Session, h: History, move: SessionStep)
    ensures After(x, h, move).consumed == if move == Consume && x.queue != [] then h.consumed + [x.queue[0]] else h.consumed
  {}

  lemma ConsumeTakesOne(x: Session, shutdown: bool, move: SessionStep)
    requires MoveEnabled(x, shutdown, move)
    ensures move == Consume ==> Added(x, move) == [] && x.queue != []
  {}

  /** No move loses, repeats or reorders a response. */
  lemma DeliveredGrows(x: Session, shutdown: bool, h: History, move: SessionStep)
    requires MoveEnabled(x, shutdown, move)
    ensures Delivered(Moved(x, move), After(x, h, move)) == Delivered(x, h) + Added(x, move)
  {
    hide Moved, After, Added, MoveEnabled;
    QueueMoves(x, shutdown, move);
    HistoryMoves(x, h, move);
    ConsumeTakesOne(x, shutdown, move);
    if move == Consume {
      assert x.queue == [x.queue[0]] + x.queue[1..];
      assert h.consumed + [x.queue[0]] + x.queue[1..] == h.consumed + x.queue;
    }
  }

  lemma PacketsGrow(x: Session, shutdown: bool, h: History, move: SessionStep)
    requires MoveEnabled(x, shutdown, move)
    ensures Packets(Delivered(Moved(x, move), After(x, h, move)))
            == Packets(Delivered(x, h)) + (if move == SendCompletes && x.reader.response.Incoming? then [x.reader.response.packet] else [])
  {
    hide Delivered, Moved, After;
    DeliveredGrows(x, shutdown, h, move);
    var d, more := Delivered(x, h), Added(x, move);
    if more == [] {
      assert d + more == d;
    } else {
      PacketsSnoc(d, more[0]);
      assert more == [more[0]];
    }
  }

  lemma ReaderMoves(x: Session, shutdown: bool, h: History, move: SessionStep, packets: seq<Packet>)
    requires Consistent(x) && MoveEnabled(x, shutdown, move) && IsReaderMove(move)
    requires ReaderAccounted(x.reader, Lost(x), x.interrupted, packets, h.read, h.failed)
    ensures var y, g := Moved(x, move), After(x, h, move);
            var more := packets + (if move == SendCompletes && x.reader.response.Incoming? then [x.reader.response.packet] else []);
            ReaderAccounted(y.reader, Lost(y), y.interrupted, more, g.read, g.failed)
  {
    assert packets + [] == packets;
  }

  lemma ReaderStays(x: Session, move: SessionStep)
    requires !IsReaderMove(move)
    ensures Moved(x, move).reader == x.reader
  {}

  lemma EndingStays(x: Session, move: SessionStep)
    ensures Lost(x) ==> Lost(Moved(x, move))
    ensures x.interrupted ==> Moved(x, move).interrupted
  {}

  lemma NothingRead(x: Session, h: History, move: SessionStep)
    requires !IsReaderMove(move)
    ensures After(x, h, move).read == h.read && After(x, h, move).failed == h.failed
  {}

  lemma ReadsStayAccounted(x: Session, shutdown: bool, h: History, move: SessionStep)
    requires Consistent(x) && MoveEnabled(x, shutdown, move) && ReadsAccounted(x, h)
    ensures ReadsAccounted(Moved(x, move), After(x, h, move))
  {
    PacketsGrow(x, shutdown, h, move);
    hide Packets, Delivered, Moved, After, MoveEnabled, Consistent, Lost;
    var packets := Packets(Delivered(x, h));
    if IsReaderMove(move) {
      ReaderMoves(x, shutdown, h, move, packets);
    } else {
      ReaderStays(x, move);
      EndingStays(x, move);
      NothingRead(x, h, move);
      assert packets + [] == packets;
    }
  }

  lemma WriterMoves(x: Session, shutdown: bool, h: History, move: SessionStep)
    requires MoveEnabled(x, shutdown, move) && IsWriterMove(move) && WriterAccounted(x.phase, x.written, h.taken)
    ensures WriterAccounted(Moved(x, move).phase, Moved(x, move).written, After(x, h, move).taken)
  {}

  lemma EarlyWritesNothing(x: Session, move: SessionStep)
    requires IsEarlyMove(move)
    ensures Moved(x, move).written == x.written && !Moved(x, move).phase.Writing?
  {}

  lemma EarlyPhases(x: Session, shutdown: bool, move: SessionStep)
    requires MoveEnabled(x, shutdown, move) && IsEarlyMove(move)
    ensures !x.phase.Writing? && !PastLoop(x.phase)
  {
    hide Moved;
  }

  lemma LateWritesNothing(x: Session, move: SessionStep)
    requires IsLateMove(move)
    ensures Moved(x, move).written == x.written && (Moved(x, move).phase == x.phase || PastLoop(Moved(x, move).phase))
  {}

  lemma LatePhases(x: Session, shutdown: bool, move: SessionStep)
    requires MoveEnabled(x, shutdown, move) && IsLateMove(move)
    ensures PastLoop(x.phase)
  {
    hide Moved;
  }

  lemma ReaderAndClientMoves(x: Session, move: SessionStep)
    requires !IsEarlyMove(move) && !IsLateMove(move) && !IsWriterMove(move)
    ensures Moved(x, move).written == x.written && Moved(x, move).phase == x.phase
  {}

  lemma NothingTaken(x: Session, h: History, move: SessionStep)
    requires !IsWriterMove(move)
    ensures After(x, h, move).taken == h.taken
  {}

  lemma NothingWritten(x: Session, shutdown: bool, move: SessionStep)
    requires MoveEnabled(x, shutdown, move) && !IsWriterMove(move)
    ensures var y := Moved(x, move);
            && y.written == x.written && (y.phase == x.phase || (!x.phase.Writing? && !y.phase.Writing?))
            && (PastLoop(x.phase) ==> PastLoop(y.phase))
  {
    hide Moved, MoveEnabled;
    if IsEarlyMove(move) {
      EarlyWritesNothing(x, move);
      EarlyPhases(x, shutdown, move);
    } else if IsLateMove(move) {
      LateWritesNothing(x, move);
      LatePhases(x, shutdown, move);
    } else {
      ReaderAndClientMoves(x, move);
    }
  }

  lemma WritesStayAccounted(x: Session, shutdown: bool, h: History, move: SessionStep)
    requires MoveEnabled(x, shutdown, move) && WritesAccounted(x, h)
    ensures WritesAccounted(Moved(x, move), After(x, h, move))
  {
    hide Moved, After, MoveEnabled, PastLoop;
    if IsWriterMove(move) {
      WriterMoves(x, shutdown, h, move);
    } else {
      NothingTaken(x, h, move);
      NothingWritten(x, shutdown, move);
    }
  }

  lemma StartStaysFirst(x: Session, shutdown: bool, h: History, move: SessionStep)
    requires Consistent(x) && MoveEnabled(x, shutdown, move) && StartedFirst(x, h)
    ensures StartedFirst(Moved(x, move), After(x, h, move))
  {
    hide Delivered, Consistent, MoveEnabled, Moved, Added, After;
    DeliveredGrows(x, shutdown, h, move);
    StartMoves(x, shutdown, move);
    var d, y := Delivered(x, h), Moved(x, move);
    assert d != [] ==> (d + Added(x, move))[0] == d[0];
  }

  /** Which moves start a session, and what may be added before and at that point. */
  lemma StartMoves(x: Session, shutdown: bool, move: SessionStep)
    requires Consistent(x) && MoveEnabled(x, shutdown, move)
    ensures var y := Moved(x, move);
            && (y.started ==> x.started || (y.phase == Announcing && x.phase == Starting))
            && (y.phase in {Reserved, Starting, Announcing} ==> x.phase in {Reserved, Starting, Announcing} && Added(x, move) == [])
            && (x.started && x.phase == Announcing ==> Added(x, move) == if x.receiving then [Started] else [])
            && (y.receiving == x.receiving) && (x.started ==> y.started)
            && (x.started && x.phase != Announcing && !x.receiving ==> Added(x, move) == [])
  {}

  lemma MoveStaysAccounted(x: Session, shutdown: bool, h: History, move: SessionStep)
    requires Consistent(x) && MoveEnabled(x, shutdown, move) && Accounted(x, h)
    ensures Accounted(Moved(x, move), After(x, h, move))
  {
    hide ReadsAccounted, WritesAccounted, StartedFirst, Moved, After, MoveEnabled, Consistent;
    ReadsStayAccounted(x, shutdown, h, move);
    WritesStayAccounted(x, shutdown, h, move);
    StartStaysFirst(x, shutdown, h, move);
  }

  ghost predicate AccountedIn(s: System, id: Id, h: History)
  {
    if id in s.sessions then Accounted(s.sessions[id], h) else h == NOTHING
  }

  lemma StepStaysAccounted(s: System, step: Step, id: Id, h: History)
    requires Invariant(s) && Enabled(s, step) && AccountedIn(s, id, h)
    ensures AccountedIn(Apply(s, step), id, Recorded(h, s, step, id))
  {
    hide HeldNames, OneOwner, Consistent, Accounted, Moved, MoveEnabled, Freed, NewSession, Invariant, After;
    if step.OfSession? && step.id == id {
      ConsistentIn(s, id);
      MoveStaysAccounted(s.sessions[id], s.shutdown, h, step.move);
    } else if step.Reserve? && step.id == id {
      RequestingIsNew(s, id);
      NewIsAccounted(step.name);
    } else if id in s.sessions && (step.ConnectionEnds? || step.RequestShutdown? || step.StopStreaming?) {
      LostClientIsAccounted(s.sessions[id], h);
    }
  }

  lemma ConsistentIn(s: System, id: Id)
    requires Invariant(s) && id in s.sessions
    ensures Consistent(s.sessions[id])
  {}

  lemma RequestingIsNew(s: System, id: Id)
    requires Invariant(s) && InConnection(s, id, Requesting)
    ensures id !in s.sessions
  {
    assert id in s.sessions ==> Linked(s, id);
  }

  /** Over every run, for every session: the packets delivered to the client are the packets read, in order, but for one that
      is being sent or was given up at a stop or a lost client; the packets written are the packets taken, in order, but for
      one that is being written or failed; the start is announced first; and the reader has ended only after a stop, an
      interrupt, a lost client or a failed read. */
  lemma {:induction false} TrafficIsAccounted(states: seq<System>, steps: seq<Step>, n: nat, id: Id)
    requires Run(states, steps) && DevicesKeepNames(states, steps) && n < |states|
    ensures AccountedIn(states[n], id, HistoryOf(states, steps, n, id))
  {
    hide Invariant, AccountedIn, Recorded, Enabled, Apply;
    if n == 0 {
      NothingAtFirst(id);
    } else {
      TrafficIsAccounted(states, steps, n - 1, id);
      EveryStateIsInvariant(states, steps, n - 1);
      StepStaysAccounted(states[n - 1], steps[n - 1], id, HistoryOf(states, steps, n - 1, id));
    }
  }

  lemma NothingAtFirst(id: Id)
    ensures AccountedIn(INITIAL, id, NOTHING)
  {}
}
