/** The daemon's connections and sessions as a step machine (server.rs, session.rs, main.rs).
    Every `await` that can suspend and every blocking call is a step boundary. */
module SessionProtocol {

  const MAX_ACTIVE_SESSIONS := 16
  const QUEUE_CAPACITY := 64

  /** A connection makes at most one session, which carries the same number. */
  type Id = nat

  /** `serve_connection` */
  datatype Connection =
    | Opening     // until the first message has been read
    | Requesting  // in `session`, past the shutdown check
    | Streaming   // forwards the responses of its session
    | Draining    // has dropped the response receiver, its read half is still open
    | Joined

  /** A packet, by a label of its own. */
  type Packet = nat

  /** What the client is sent. */
  datatype Response = Started | Incoming(packet: Packet) | ReadError | SessionError

  /** The session task, from reservation to release. */
  datatype Phase = Reserved | Starting | Announcing | Looping | Writing(packet: Packet) | Closing | Cleaning | Joining | Releasing | Released

  /** The blocking TUN reader. */
  datatype Reader = NotSpawned | Reading | Sending(response: Response) | Finished

  datatype Session = Session(
    name: string,         // reserved name
    device: string,       // name the device reports
    phase: Phase,
    started: bool,
    reader: Reader,
    stopSent: bool,
    interrupted: bool,
    hookRuns: nat,
    readerJoined: bool,
    queue: seq<Response>, // responses not yet consumed
    receiving: bool,      // the response receiver is alive
    written: seq<Packet>) // what the device took

  datatype Main = Accepting | JoiningConnections | WaitingForSessions | Exited(drained: bool)

  datatype System = System(active: set<string>, connections: map<Id, Connection>, sessions: map<Id, Session>, shutdown: bool, main: Main)

  const INITIAL := System({}, map[], map[], false, Accepting)

  // ------------------------------------------------------------------- steps

  /** Steps of one session: its task, its reader and the consumer of its responses. */
  datatype SessionStep =
    // run by the session task
    | AbortEarly
    | BeginStart
    | StartFails
    | StartSucceeds(device: string)
    | Announce
    | BeginWrite(packet: Packet)
    | WriteReturns
    | LeaveLoop
    | CloseBegins
    | CloseReturns
    | JoinReader
    | Report
    | Release
    // run by the reader
    | ReadPacket(packet: Packet)
    | ReadFails
    | ReadInterrupted
    | SendCompletes
    | SendGivesUp
    // run by the connection
    | Consume

  datatype Step =
    // main.rs
    | Accept(id: Id)
    | StopAccepting
    | ConnectionsJoined
    | ObserveEmpty
    | DrainTimeout
    // the connection task
    | ConnectionEnds(id: Id)
    | RequestShutdown(id: Id)
    | BeginRequest(id: Id)
    | StopStreaming(id: Id)
    | Reserve(id: Id, name: string)
    // a session
    | OfSession(id: Id, move: SessionStep)

  predicate MoveEnabled(x: Session, shutdown: bool, move: SessionStep)
  {
    match move
    case AbortEarly => x.phase == Reserved && (shutdown || !x.receiving)
    case BeginStart => x.phase == Reserved && !shutdown && x.receiving
    case StartFails => x.phase == Starting
    case StartSucceeds(_) => x.phase == Starting
    case Announce => x.phase == Announcing && (x.receiving ==> |x.queue| < QUEUE_CAPACITY)
    // The select is biased: shutdown, a lost client and a finished reader are seen before the next message.
    case BeginWrite(_) => x.phase == Looping && !shutdown && x.receiving && x.reader != Finished
    case WriteReturns => x.phase.Writing?
    case LeaveLoop => x.phase == Looping || x.phase.Writing?
    case CloseBegins => x.phase == Closing
    case CloseReturns => x.phase == Cleaning
    case JoinReader => x.phase == Joining && x.reader == Finished
    case Report => x.phase == Releasing
    case Release => x.phase == Releasing
    case ReadPacket(_) => x.reader == Reading && !x.interrupted
    case ReadFails => x.reader == Reading && !x.interrupted
    // The interrupt is sticky: every read returns once it has been triggered.
    case ReadInterrupted => x.reader == Reading && x.interrupted
    // Also biased: the stop signal is seen before a free slot.
    case SendCompletes => x.reader.Sending? && !x.stopSent && x.receiving && |x.queue| < QUEUE_CAPACITY
    case SendGivesUp => x.reader.Sending? && (x.stopSent || !x.receiving)
    case Consume => x.receiving && x.queue != []
  }

  /** `try_send` of an error: queued if there is room and somebody listens, dropped otherwise. It never waits. */
  function Told(x: Session): Session
  {
    if x.receiving && |x.queue| < QUEUE_CAPACITY then x.(queue := x.queue + [SessionError]) else x
  }

  function Moved(x: Session, move: SessionStep): Session
  {
    match move
    case AbortEarly => x.(phase := Released)
    case BeginStart => x.(phase := Starting)
    case StartFails => Told(x).(phase := Released)
    case StartSucceeds(device) => x.(phase := Announcing, started := true, device := device)
    case Announce => x.(phase := Looping, reader := Reading, queue := if x.receiving then x.queue + [Started] else x.queue)
    case BeginWrite(packet) => x.(phase := Writing(packet))
    case WriteReturns => if x.phase.Writing? then x.(phase := Looping, written := x.written + [x.phase.packet]) else x
    case LeaveLoop => x.(phase := Closing, stopSent := true)
    case CloseBegins => x.(phase := Cleaning, interrupted := true)
    case CloseReturns => x.(phase := Joining, hookRuns := x.hookRuns + 1)
    case JoinReader => x.(phase := Releasing, readerJoined := true)
    case Report => Told(x)
    case Release => x.(phase := Released)
    case ReadPacket(packet) => x.(reader := Sending(Incoming(packet)))
    case ReadFails => x.(reader := Sending(ReadError))
    case ReadInterrupted => x.(reader := Finished)
    case SendCompletes =>
      if x.reader.Sending?
      then x.(queue := x.queue + [x.reader.response], reader := if x.reader.response == ReadError then Finished else Reading)
      else x
    case SendGivesUp => x.(reader := Finished)
    case Consume => if x.queue != [] then x.(queue := x.queue[1..]) else x
  }

  /** The name a move takes out of the active set: early failures use the reserved name, the main path the device's. */
  function Freed(x: Session, move: SessionStep): set<string>
  {
    match move
    case AbortEarly => {x.name}
    case StartFails => {x.name}
    case Release => {x.device}
    case _ => {}
  }

  predicate InConnection(s: System, id: Id, c: Connection)
  {
    id in s.connections && s.connections[id] == c
  }

  predicate Enabled(s: System, step: Step)
  {
    match step
    case Accept(id) => s.main == Accepting && id !in s.connections
    case StopAccepting => s.main == Accepting
    case ConnectionsJoined => s.main == JoiningConnections && forall id :: id in s.connections ==> s.connections[id] == Joined
    case ObserveEmpty => s.main == WaitingForSessions && s.active == {}
    case DrainTimeout => s.main == JoiningConnections || s.main == WaitingForSessions
    case ConnectionEnds(id) => id in s.connections && s.connections[id] != Joined
    case RequestShutdown(id) => InConnection(s, id, Opening)
    case BeginRequest(id) => InConnection(s, id, Opening) && !s.shutdown
    case StopStreaming(id) => InConnection(s, id, Streaming)
    case Reserve(id, name) => InConnection(s, id, Requesting) && name !in s.active && |s.active| < MAX_ACTIVE_SESSIONS
    case OfSession(id, move) => id in s.sessions && MoveEnabled(s.sessions[id], s.shutdown, move)
  }

  function NewSession(name: string): Session
  {
    Session(name, "", Reserved, false, NotSpawned, false, false, 0, false, [], true, [])
  }

  /** The connection moves on without its response receiver, if it held one. */
  function Detach(s: System, id: Id, next: Connection): System
  {
    var s' := s.(connections := s.connections[id := next]);
    if id in s.sessions then s'.(sessions := s.sessions[id := s.sessions[id].(receiving := false)]) else s'
  }

  function Apply(s: System, step: Step): System
    requires Enabled(s, step)
  {
    match step
    case Accept(id) => s.(connections := s.connections[id := Opening])
    case StopAccepting => s.(main := JoiningConnections, shutdown := true)
    case ConnectionsJoined => s.(main := WaitingForSessions)
    case ObserveEmpty => s.(main := Exited(true))
    case DrainTimeout => s.(main := Exited(false))
    case ConnectionEnds(id) => Detach(s, id, Joined)
    case RequestShutdown(id) => Detach(s, id, Joined).(shutdown := true)
    case BeginRequest(id) => s.(connections := s.connections[id := Requesting])
    case StopStreaming(id) => Detach(s, id, Draining)
    case Reserve(id, name) => s.(active := s.active + {name}, connections := s.connections[id := Streaming], sessions := s.sessions[id := NewSession(name)])
    case OfSession(id, move) => s.(active := s.active - Freed(s.sessions[id], move), sessions := s.sessions[id := Moved(s.sessions[id], move)])
  }

  /** The assumption of the main path: the device comes up under the reserved name. */
  predicate DeviceKeepsName(s: System, step: Step)
  {
    step.OfSession? && step.id in s.sessions ==> NameKept(s.sessions[step.id], step.move)
  }

  predicate NameKept(x: Session, move: SessionStep)
  {
    move.StartSucceeds? ==> move.device == x.name
  }

  // --------------------------------------------------------------- invariant

  predicate Holding(x: Session)
  {
    x.phase != Released
  }

  /** The names of the sessions between reservation and release. */
  function HeldNames(s: System): set<string>
  {
    set id | id in s.sessions && Holding(s.sessions[id]) :: s.sessions[id].name
  }

  predicate OneOwner(s: System)
  {
    forall i, j :: i in s.sessions && j in s.sessions && i != j && Holding(s.sessions[i]) && Holding(s.sessions[j])
                   ==> s.sessions[i].name != s.sessions[j].name
  }

  /** What each phase implies about the session's resources. */
  predicate Consistent(x: Session)
  {
    && |x.queue| <= QUEUE_CAPACITY
    && (x.started ==> x.device == x.name)
    && (x.phase in {Reserved, Starting} ==> !x.started && x.queue == [])
    && (x.phase == Announcing ==> x.queue == [])
    && (x.phase !in {Reserved, Starting, Released} ==> x.started)
    && (x.reader == NotSpawned <==> !x.started || x.phase == Announcing)
    && (x.stopSent <==> x.started && x.phase in {Closing, Cleaning, Joining, Releasing, Released})
    && (x.interrupted <==> x.started && x.phase in {Cleaning, Joining, Releasing, Released})
    && x.hookRuns == (if x.started && x.phase in {Joining, Releasing, Released} then 1 else 0)
    && (x.readerJoined <==> x.started && x.phase in {Releasing, Released})
    && (x.readerJoined ==> x.reader == Finished)
  }

  predicate Linked(s: System, id: Id)
    requires id in s.sessions
  {
    && id in s.connections
    && (s.sessions[id].receiving <==> s.connections[id] == Streaming)
    && s.connections[id] in {Streaming, Draining, Joined}
  }

  ghost predicate Invariant(s: System)
  {
    && s.active == HeldNames(s)
    && OneOwner(s)
    && |s.active| <= MAX_ACTIVE_SESSIONS
    && (forall id :: id in s.sessions ==> Consistent(s.sessions[id]) && Linked(s, id))
    && (s.main != Accepting ==> s.shutdown)
    && (s.main == WaitingForSessions || s.main == Exited(true) ==> forall id :: id in s.connections ==> s.connections[id] == Joined)
    && (s.main == Exited(true) ==> s.active == {})
  }

  lemma InitialInvariant()
    ensures Invariant(INITIAL)
  {}

  /** A session step that does not release: the names are the same. */
  lemma KeepNames(s: System, id: Id, x: Session)
    requires Invariant(s) && id in s.sessions
    requires x.name == s.sessions[id].name && Holding(x) == Holding(s.sessions[id])
    ensures var s' := s.(sessions := s.sessions[id := x]); HeldNames(s') == HeldNames(s) && OneOwner(s')
  {
    hide Consistent, Linked;
    var s' := s.(sessions := s.sessions[id := x]);
    forall n
      ensures n in HeldNames(s') <==> n in HeldNames(s)
    {
      if n in HeldNames(s) {
        var i :| i in s.sessions && Holding(s.sessions[i]) && s.sessions[i].name == n;
        assert i in s'.sessions && Holding(s'.sessions[i]) && s'.sessions[i].name == n;
      }
      if n in HeldNames(s') {
        var i :| i in s'.sessions && Holding(s'.sessions[i]) && s'.sessions[i].name == n;
        assert i in s.sessions && Holding(s.sessions[i]) && s.sessions[i].name == n;
      }
    }
  }

  /** A releasing step takes exactly its own name out of the held names. */
  lemma DropName(s: System, id: Id, x: Session)
    requires OneOwner(s) && id in s.sessions
    requires Holding(s.sessions[id]) && !Holding(x)
    ensures var s' := s.(sessions := s.sessions[id := x]); HeldNames(s') == HeldNames(s) - {s.sessions[id].name} && OneOwner(s')
  {
    var s' := s.(sessions := s.sessions[id := x]);
    var name := s.sessions[id].name;
    forall n
      ensures n in HeldNames(s') <==> n in HeldNames(s) && n != name
    {
      if n in HeldNames(s) && n != name {
        var i :| i in s.sessions && Holding(s.sessions[i]) && s.sessions[i].name == n;
        assert i in s'.sessions && Holding(s'.sessions[i]) && s'.sessions[i].name == n;
      }
      if n in HeldNames(s') {
        var i :| i in s'.sessions && Holding(s'.sessions[i]) && s'.sessions[i].name == n;
        assert i != id && Holding(s.sessions[i]) && s.sessions[i].name == n;
      }
    }
  }

  lemma MoveStaysConsistent(x: Session, shutdown: bool, move: SessionStep)
    requires Consistent(x) && MoveEnabled(x, shutdown, move) && NameKept(x, move)
    ensures Consistent(Moved(x, move))
  {}

  /** Only a release ends a session's hold, and it frees the reserved name. */
  lemma MoveFreesOwnName(x: Session, shutdown: bool, move: SessionStep)
    requires Consistent(x) && MoveEnabled(x, shutdown, move)
    ensures Moved(x, move).name == x.name && Moved(x, move).receiving == x.receiving
    ensures Holding(x) == Holding(Moved(x, move)) ==> Freed(x, move) == {}
    ensures Holding(x) != Holding(Moved(x, move)) ==> Holding(x) && Freed(x, move) == {x.name}
  {}

  lemma SubsetSize(a: set<string>, b: set<string>)
    requires a <= b
    ensures |a| <= |b|
  {
    if a != {} {
      var x :| x in a;
      SubsetSize(a - {x}, b - {x});
    }
  }

  lemma MoveKeepsInvariant(s: System, id: Id, move: SessionStep)
    requires Invariant(s) && Enabled(s, OfSession(id, move)) && NameKept(s.sessions[id], move)
    ensures Invariant(Apply(s, OfSession(id, move)))
  {
    hide Consistent, Moved, Freed, HeldNames, OneOwner, MoveEnabled, NameKept;
    var x, x' := s.sessions[id], Moved(s.sessions[id], move);
    MoveStaysConsistent(x, s.shutdown, move);
    MoveFreesOwnName(x, s.shutdown, move);
    var s' := Apply(s, OfSession(id, move));
    SameHeldNames(s.(sessions := s.sessions[id := x']), s');
    if Holding(x) == Holding(x') {
      KeepNames(s, id, x');
      assert s.active - {} == s.active;
    } else {
      DropName(s, id, x');
      SubsetSize(s.active - Freed(x, move), s.active);
    }
  }

  lemma SameHeldNames(a: System, b: System)
    requires a.sessions == b.sessions
    ensures HeldNames(a) == HeldNames(b) && OneOwner(a) == OneOwner(b)
  {}

  lemma DetachKeepsInvariant(s: System, id: Id, next: Connection)
    requires Invariant(s) && id in s.connections && (next == Joined || (next == Draining && s.connections[id] == Streaming))
    ensures Invariant(Detach(s, id, next))
  {
    hide Consistent, HeldNames, OneOwner;
    var s' := Detach(s, id, next);
    if id in s.sessions {
      var x := s.sessions[id].(receiving := false);
      KeepNames(s, id, x);
      ReceivingIsFree(s.sessions[id]);
      SameHeldNames(s.(sessions := s.sessions[id := x]), s');
    } else {
      SameHeldNames(s, s');
    }
  }

  lemma ReceivingIsFree(x: Session)
    requires Consistent(x)
    ensures Consistent(x.(receiving := false))
  {}

  lemma AddName(s: System, id: Id, x: Session)
    requires s.active == HeldNames(s) && id !in s.sessions && Holding(x)
    ensures HeldNames(s.(sessions := s.sessions[id := x])) == HeldNames(s) + {x.name}
  {
    var s' := s.(sessions := s.sessions[id := x]);
    forall n
      ensures n in HeldNames(s') <==> n in HeldNames(s) || n == x.name
    {
      if n in HeldNames(s) {
        var i :| i in s.sessions && Holding(s.sessions[i]) && s.sessions[i].name == n;
        assert i in s'.sessions && Holding(s'.sessions[i]) && s'.sessions[i].name == n;
      }
      if n == x.name {
        assert id in s'.sessions && Holding(s'.sessions[id]) && s'.sessions[id].name == n;
      }
    }
  }

  lemma NewOwnerIsOnlyOwner(s: System, id: Id, x: Session)
    requires OneOwner(s) && s.active == HeldNames(s) && id !in s.sessions && x.name !in s.active
    ensures OneOwner(s.(sessions := s.sessions[id := x]))
  {
    forall i | i in s.sessions && Holding(s.sessions[i])
      ensures s.sessions[i].name != x.name
    {
      assert s.sessions[i].name in HeldNames(s);
    }
  }

  lemma ReserveKeepsInvariant(s: System, id: Id, name: string)
    requires Invariant(s) && Enabled(s, Reserve(id, name))
    ensures Invariant(Apply(s, Reserve(id, name)))
  {
    hide HeldNames, OneOwner;
    var x := NewSession(name);
    AddName(s, id, x);
    NewOwnerIsOnlyOwner(s, id, x);
    SameHeldNames(s.(sessions := s.sessions[id := x]), Apply(s, Reserve(id, name)));
  }

  /** Every step, of any task, keeps the invariant. */
  lemma StepKeepsInvariant(s: System, step: Step)
    requires Invariant(s) && Enabled(s, step) && DeviceKeepsName(s, step)
    ensures Invariant(Apply(s, step))
  {
    hide HeldNames, OneOwner, Consistent, Moved, Freed, MoveEnabled, NameKept;
    if step.OfSession? {
      MoveKeepsInvariant(s, step.id, step.move);
    } else if step.Reserve? {
      ReserveKeepsInvariant(s, step.id, step.name);
    } else if step.ConnectionEnds? || step.RequestShutdown? {
      DetachKeepsInvariant(s, step.id, Joined);
      SameHeldNames(Detach(s, step.id, Joined), Apply(s, step));
    } else if step.StopStreaming? {
      DetachKeepsInvariant(s, step.id, Draining);
    } else {
      SameHeldNames(s, Apply(s, step));
    }
  }

  // ------------------------------------------------------------ the active set

  datatype Reservation = Duplicate | LimitReached | Inserted

  /** The shared set of reserved names; each method is one critical section. */
  class ActiveSessions {
    var names: set<string>

    constructor ()
      ensures names == INITIAL.active
    {
      names := {};
    }

    /** The reservation in `session`: inserts exactly when the name is free and the cap is not reached. */
    method Reserve(name: string) returns (r: Reservation)
      modifies this
      ensures r == Inserted <==> name !in old(names) && |old(names)| < MAX_ACTIVE_SESSIONS
      ensures r == Duplicate <==> name in old(names)
      ensures names == if r == Inserted then old(names) + {name} else old(names)
    {
      if name in names {
        r := Duplicate;
      } else if |names| >= MAX_ACTIVE_SESSIONS {
        r := LimitReached;
      } else {
        names := names + {name};
        r := Inserted;
      }
    }

    method Remove(name: string)
      modifies this
      ensures names == old(names) - {name}
    {
      names := names - {name};
    }
  }
}
