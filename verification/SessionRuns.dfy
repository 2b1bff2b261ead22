/** What holds in every run of the session protocol: ownership, cap, teardown order, drain and progress. */
module SessionRuns {
  import opened Results
  import opened SessionProtocol

  // -------------------------------------------------------------------- runs

  /** Any interleaving of enabled steps, from the start of the daemon. */
  ghost predicate Run(states: seq<System>, steps: seq<Step>)
  {
    && |states| == |steps| + 1
    && states[0] == INITIAL
    && forall i :: 0 <= i < |steps| ==> Enabled(states[i], steps[i]) && states[i + 1] == Apply(states[i], steps[i])
  }

  ghost predicate DevicesKeepNames(states: seq<System>, steps: seq<Step>)
  {
    forall i :: 0 <= i < |steps| && i < |states| ==> DeviceKeepsName(states[i], steps[i])
  }

  lemma {:induction false} EveryStateIsInvariant(states: seq<System>, steps: seq<Step>, n: nat)
    requires Run(states, steps) && DevicesKeepNames(states, steps) && n < |states|
    ensures Invariant(states[n])
  {
    hide Invariant, Enabled, Apply, DeviceKeepsName;
    if n == 0 {
      InitialInvariant();
    } else {
      EveryStateIsInvariant(states, steps, n - 1);
      StepKeepsInvariant(states[n - 1], steps[n - 1]);
    }
  }

  /** In every reachable state the active set is exactly the names held, each by one session, at most sixteen. */
  lemma ReservationsAreExact(states: seq<System>, steps: seq<Step>, n: nat)
    requires Run(states, steps) && DevicesKeepNames(states, steps) && n < |states|
    ensures forall name :: name in states[n].active
              <==> exists id :: id in states[n].sessions && Holding(states[n].sessions[id]) && states[n].sessions[id].name == name
    ensures OneOwner(states[n]) && |states[n].active| <= MAX_ACTIVE_SESSIONS
  {
    hide Run, DevicesKeepNames;
    EveryStateIsInvariant(states, steps, n);
  }

  /** A session without a reservation either never started, or its cleanup hook has run exactly once and its reader
      has been joined; while it holds the name the hook has run at most once. */
  lemma ReleasedOnlyAfterTeardown(states: seq<System>, steps: seq<Step>, n: nat, id: Id)
    requires Run(states, steps) && DevicesKeepNames(states, steps) && n < |states| && id in states[n].sessions
    ensures var x := states[n].sessions[id];
            && x.hookRuns <= 1
            && (!Holding(x) ==> (!x.started && x.hookRuns == 0) || (x.started && x.hookRuns == 1 && x.readerJoined && x.reader == Finished))
  {
    hide Run, DevicesKeepNames;
    EveryStateIsInvariant(states, steps, n);
  }

  /** The assumption on device names is exactly what release needs: the active set stays exact if and only if the
      device reported the reserved name. */
  lemma ReleaseNeedsReservedName(s: System, id: Id)
    requires s.active == HeldNames(s) && OneOwner(s) && Enabled(s, OfSession(id, Release))
    ensures var s' := Apply(s, OfSession(id, Release));
            s'.active == HeldNames(s') <==> s.sessions[id].device == s.sessions[id].name
  {
    hide HeldNames, OneOwner;
    var x := s.sessions[id];
    HoldsItsName(s, id);
    DropName(s, id, Moved(x, Release));
    SameHeldNames(s.(sessions := s.sessions[id := Moved(x, Release)]), Apply(s, OfSession(id, Release)));
  }

  lemma HoldsItsName(s: System, id: Id)
    requires id in s.sessions && Holding(s.sessions[id])
    ensures s.sessions[id].name in HeldNames(s)
  {}

  /** The system while connection 0 and its session are alone. */
  function Alone(x: Session, active: set<string>): System
  {
    System(active, map[0 := Streaming], map[0 := x], false, Accepting)
  }

  lemma RunSnoc(states: seq<System>, steps: seq<Step>, step: Step)
    requires Run(states, steps) && Enabled(states[|steps|], step)
    ensures Run(states + [Apply(states[|steps|], step)], steps + [step])
  {
    hide Apply, Enabled;
    var more, all := states + [Apply(states[|steps|], step)], steps + [step];
    forall i | 0 <= i < |all|
      ensures Enabled(more[i], all[i]) && more[i + 1] == Apply(more[i], all[i])
    {
      assert i < |steps| ==> more[i] == states[i] && more[i + 1] == states[i + 1] && all[i] == steps[i];
    }
  }

  /** One more move of the session that is alone. */
  lemma AloneMoves(states: seq<System>, steps: seq<Step>, x: Session, active: set<string>, move: SessionStep)
    returns (more: seq<System>, all: seq<Step>)
    requires Run(states, steps) && states[|steps|] == Alone(x, active) && MoveEnabled(x, false, move)
    ensures Run(more, all) && more[|all|] == Alone(Moved(x, move), active - Freed(x, move))
  {
    hide Run, MoveEnabled, Moved, Freed;
    RunLength(states, steps);
    var step := OfSession(0, move);
    RunSnoc(states, steps, step);
    more, all := states + [Apply(states[|steps|], step)], steps + [step];
    assert Apply(states[|steps|], step).sessions == map[0 := Moved(x, move)];
  }

  lemma RunLength(states: seq<System>, steps: seq<Step>)
    requires Run(states, steps)
    ensures |states| == |steps| + 1
  {}

  lemma AloneReserves(name: string) returns (states: seq<System>, steps: seq<Step>)
    ensures Run(states, steps) && states[|steps|] == Alone(NewSession(name), {name})
  {
    var first, second := INITIAL.(connections := map[0 := Opening]), INITIAL.(connections := map[0 := Requesting]);
    FirstSteps(name);
    hide Apply, Enabled, Alone;
    states, steps := [INITIAL], [];
    RunSnoc(states, steps, Accept(0));
    states, steps := states + [first], steps + [Accept(0)];
    RunSnoc(states, steps, BeginRequest(0));
    states, steps := states + [second], steps + [BeginRequest(0)];
    RunSnoc(states, steps, Reserve(0, name));
    states, steps := states + [Alone(NewSession(name), {name})], steps + [Reserve(0, name)];
  }

  lemma FirstSteps(name: string)
    ensures var first, second := INITIAL.(connections := map[0 := Opening]), INITIAL.(connections := map[0 := Requesting]);
            && Enabled(INITIAL, Accept(0)) && Apply(INITIAL, Accept(0)) == first
            && Enabled(first, BeginRequest(0)) && Apply(first, BeginRequest(0)) == second
            && Enabled(second, Reserve(0, name)) && Apply(second, Reserve(0, name)) == Alone(NewSession(name), {name})
  {}

  lemma AloneStarts(name: string, device: string) returns (states: seq<System>, steps: seq<Step>, x: Session)
    ensures Run(states, steps) && states[|steps|] == Alone(x, {name})
    ensures x.name == name && x.device == device && x.phase == Looping && x.reader == Reading && !x.interrupted
  {
    hide Run;
    states, steps := AloneReserves(name);
    x := NewSession(name);
    states, steps := AloneMoves(states, steps, x, {name}, BeginStart);
    x := Moved(x, BeginStart);
    states, steps := AloneMoves(states, steps, x, {name}, StartSucceeds(device));
    x := Moved(x, StartSucceeds(device));
    states, steps := AloneMoves(states, steps, x, {name}, Announce);
    x := Moved(x, Announce);
    assert {name} - {} == {name};
  }

  lemma AloneCloses(states0: seq<System>, steps0: seq<Step>, x0: Session, active: set<string>)
    returns (states: seq<System>, steps: seq<Step>, x: Session)
    requires Run(states0, steps0) && states0[|steps0|] == Alone(x0, active)
    requires x0.phase == Looping && x0.reader == Reading && !x0.interrupted
    ensures Run(states, steps) && states[|steps|] == Alone(x, active)
    ensures x.name == x0.name && x.device == x0.device && x.phase == Cleaning && x.reader == Reading && x.interrupted
  {
    hide Run;
    assert active - {} == active;
    states, steps := AloneMoves(states0, steps0, x0, active, LeaveLoop);
    x := Moved(x0, LeaveLoop);
    states, steps := AloneMoves(states, steps, x, active, CloseBegins);
    x := Moved(x, CloseBegins);
  }

  lemma AloneStops(states0: seq<System>, steps0: seq<Step>, x0: Session, active: set<string>)
    returns (states: seq<System>, steps: seq<Step>, x: Session)
    requires Run(states0, steps0) && states0[|steps0|] == Alone(x0, active)
    requires x0.phase == Cleaning && x0.reader == Reading && x0.interrupted
    ensures Run(states, steps) && states[|steps|] == Alone(x, active)
    ensures x.name == x0.name && x.device == x0.device && x.phase == Releasing
  {
    hide Run;
    assert active - {} == active;
    states, steps := AloneMoves(states0, steps0, x0, active, ReadInterrupted);
    x := Moved(x0, ReadInterrupted);
    states, steps := AloneMoves(states, steps, x, active, CloseReturns);
    x := Moved(x, CloseReturns);
    states, steps := AloneMoves(states, steps, x, active, JoinReader);
    x := Moved(x, JoinReader);
  }

  /** Without the assumption there is a failing run for every pair of names: a device that comes up under another name leaves
      the reserved name in the active set although nobody holds it. */
  lemma RenamedDeviceLeaksName(name: string, device: string) returns (states: seq<System>, steps: seq<Step>)
    requires device != name
    ensures Run(states, steps) && name in states[|steps|].active && HeldNames(states[|steps|]) == {}
  {
    hide Run;
    var x;
    states, steps, x := AloneStarts(name, device);
    states, steps, x := AloneCloses(states, steps, x, {name});
    states, steps, x := AloneStops(states, steps, x, {name});
    states, steps := AloneMoves(states, steps, x, {name}, Release);
    RunLength(states, steps);
  }

  // ------------------------------------------------------------------- drain

  /** Once every connection is joined and accepting has stopped, no step can insert a reservation. */
  lemma NoReservationAfterJoin(s: System, step: Step)
    requires s.main != Accepting && (forall id :: id in s.connections ==> s.connections[id] == Joined)
    requires Enabled(s, step)
    ensures Apply(s, step).active <= s.active
    ensures Apply(s, step).main != Accepting
    ensures forall id :: id in Apply(s, step).connections ==> Apply(s, step).connections[id] == Joined
  {}

  /** `sessions_drained=true`: nobody holds a reservation, and every session that ever started was closed once and joined. */
  lemma DrainedMeansDone(states: seq<System>, steps: seq<Step>, n: nat)
    requires Run(states, steps) && DevicesKeepNames(states, steps) && n < |states| && states[n].main == Exited(true)
    ensures states[n].active == {}
    ensures forall id :: id in states[n].sessions ==>
              var x := states[n].sessions[id];
              !Holding(x) && (x.started ==> x.hookRuns == 1 && x.readerJoined)
  {
    hide Run, DevicesKeepNames;
    EveryStateIsInvariant(states, steps, n);
    NobodyHolds(states[n]);
  }

  lemma NobodyHolds(s: System)
    requires HeldNames(s) == {}
    ensures forall id :: id in s.sessions ==> !Holding(s.sessions[id])
  {
    assert forall id :: id in s.sessions && Holding(s.sessions[id]) ==> s.sessions[id].name in HeldNames(s);
  }

  // ---------------------------------------------------------------- teardown

  /** The session must end: the daemon is stopping, or its client is gone. */
  predicate TearingDown(s: System, id: Id)
  {
    id in s.sessions && Holding(s.sessions[id]) && (s.shutdown || !s.sessions[id].receiving)
  }

  function PhaseRank(p: Phase): nat
  {
    match p
    case Reserved => 9
    case Starting => 8
    case Announcing => 7
    case Writing(_) => 6
    case Looping => 5
    case Closing => 4
    case Cleaning => 3
    case Joining => 2
    case Releasing => 1
    case Released => 0
  }

  /** Steps left until release, counting the reader's last one. */
  function Rank(x: Session): nat
  {
    2 * PhaseRank(x.phase) + (if x.reader == Finished || x.phase == Released then 0 else 1)
  }

  /** A move by the session's own task or reader, or the return of an operating-system call they wait for,
      that brings release closer. Consuming a response is not one. */
  predicate IsProgress(x: Session, move: SessionStep)
  {
    move != Consume && Rank(Moved(x, move)) < Rank(x)
  }

  /** In every state of a teardown, with any number of queued responses, some such move is enabled. */
  function ProgressMove(x: Session): SessionStep
  {
    match x.phase
    case Reserved => AbortEarly
    case Starting => StartFails
    case Announcing => Announce
    case Writing(_) => LeaveLoop
    case Looping => LeaveLoop
    case Closing => CloseBegins
    case Cleaning => CloseReturns
    case Joining => if x.reader == Finished then JoinReader else if x.reader == Reading then ReadInterrupted else SendGivesUp
    case Releasing => Release
    case Released => Consume
  }

  lemma ProgressIsEnabled(s: System, id: Id)
    requires Invariant(s) && TearingDown(s, id)
    ensures id in s.sessions
    ensures var x := s.sessions[id]; MoveEnabled(x, s.shutdown, ProgressMove(x)) && IsProgress(x, ProgressMove(x))
  {
    hide HeldNames, OneOwner;
    assert Consistent(s.sessions[id]);
  }

  lemma MoveNeverGrows(x: Session, shutdown: bool, move: SessionStep)
    requires Consistent(x) && Holding(x) && (shutdown || !x.receiving) && MoveEnabled(x, shutdown, move)
    ensures Rank(Moved(x, move)) <= Rank(x)
    ensures Moved(x, move).receiving == x.receiving
  {}

  /** No step of anyone moves a session in teardown away from release. */
  lemma RankNeverGrows(s: System, step: Step, id: Id)
    requires Invariant(s) && TearingDown(s, id) && Enabled(s, step)
    ensures id in Apply(s, step).sessions
    ensures Rank(Apply(s, step).sessions[id]) <= Rank(s.sessions[id])
    ensures TearingDown(Apply(s, step), id) || Apply(s, step).sessions[id].phase == Released
  {
    hide HeldNames, OneOwner, Consistent, Rank, Moved, MoveEnabled, Freed;
    assert Consistent(s.sessions[id]) && Linked(s, id);
    if step.OfSession? && step.id == id {
      MoveNeverGrows(s.sessions[id], s.shutdown, step.move);
    } else if step.ConnectionEnds? || step.RequestShutdown? || step.StopStreaming? {
      RankIgnoresReceiver(s.sessions[id]);
    }
  }

  lemma RankIgnoresReceiver(x: Session)
    ensures Rank(x.(receiving := false)) == Rank(x)
  {}

  // -------------------------------------------------------------- completion

  /** One moment of an unending run: a step, or nothing happens. */
  ghost predicate Advances(states: nat -> System, steps: nat -> Option<Step>, i: nat)
  {
    if steps(i).None? then states(i + 1) == states(i)
    else
      var step := steps(i).value;
      Enabled(states(i), step) && DeviceKeepsName(states(i), step) && states(i + 1) == Apply(states(i), step)
  }

  ghost predicate Behaviour(states: nat -> System, steps: nat -> Option<Step>)
  {
    states(0) == INITIAL && forall i: nat :: Advances(states, steps, i)
  }

  predicate ProgressPossible(s: System, id: Id)
  {
    id in s.sessions && MoveEnabled(s.sessions[id], s.shutdown, ProgressMove(s.sessions[id])) && IsProgress(s.sessions[id], ProgressMove(s.sessions[id]))
  }

  predicate ProgressMade(s: System, step: Option<Step>, id: Id)
  {
    step.Some? && step.value.OfSession? && step.value.id == id && id in s.sessions && IsProgress(s.sessions[id], step.value.move)
  }

  ghost predicate PossibleFrom(states: nat -> System, id: Id, n: nat)
  {
    forall m: nat :: m >= n ==> ProgressPossible(states(m), id)
  }

  ghost predicate MadeAfter(states: nat -> System, steps: nat -> Option<Step>, id: Id, n: nat)
  {
    exists m: nat :: m >= n && ProgressMade(states(m), steps(m), id)
  }

  /** Weak fairness: the session's task and reader are scheduled, and the system calls they wait for return. */
  ghost predicate Fair(states: nat -> System, steps: nat -> Option<Step>, id: Id)
  {
    forall n: nat :: PossibleFrom(states, id, n) ==> MadeAfter(states, steps, id, n)
  }

  lemma {:induction false} BehaviourInvariant(states: nat -> System, steps: nat -> Option<Step>, n: nat)
    requires Behaviour(states, steps)
    ensures Invariant(states(n))
  {
    hide Invariant, Enabled, Apply, DeviceKeepsName;
    if n == 0 {
      InitialInvariant();
    } else {
      BehaviourInvariant(states, steps, n - 1);
      assert Advances(states, steps, n - 1);
      if steps(n - 1).Some? {
        StepKeepsInvariant(states(n - 1), steps(n - 1).value);
      }
    }
  }

  predicate Gone(s: System, id: Id)
  {
    id in s.sessions && s.sessions[id].phase == Released
  }

  function RankAt(s: System, id: Id): nat
  {
    if id in s.sessions then Rank(s.sessions[id]) else 0
  }

  /** One moment of a teardown: the rank does not grow, and falls when progress is made. */
  lemma TeardownMoment(states: nat -> System, steps: nat -> Option<Step>, id: Id, m: nat)
    requires Behaviour(states, steps) && TearingDown(states(m), id)
    ensures TearingDown(states(m + 1), id) || Gone(states(m + 1), id)
    ensures RankAt(states(m + 1), id) <= RankAt(states(m), id)
    ensures ProgressMade(states(m), steps(m), id) ==> RankAt(states(m + 1), id) < RankAt(states(m), id)
  {
    hide Invariant, Enabled, DeviceKeepsName, Rank, Moved, Freed;
    BehaviourInvariant(states, steps, m);
    assert Advances(states, steps, m);
    if steps(m).Some? {
      RankNeverGrows(states(m), steps(m).value, id);
    }
  }

  lemma {:induction false} TeardownContinues(states: nat -> System, steps: nat -> Option<Step>, id: Id, n: nat, m: nat)
    requires Behaviour(states, steps) && TearingDown(states(n), id) && n <= m
    requires forall k: nat :: !(k >= n && Gone(states(k), id))
    ensures TearingDown(states(m), id) && RankAt(states(m), id) <= RankAt(states(n), id)
    decreases m
  {
    hide Behaviour, RankAt, TearingDown, ProgressMade;
    if m > n {
      TeardownContinues(states, steps, id, n, m - 1);
      TeardownMoment(states, steps, id, m - 1);
      assert !(m >= n && Gone(states(m), id));
    }
  }

  lemma TeardownAlwaysPossible(states: nat -> System, steps: nat -> Option<Step>, id: Id, n: nat)
    requires Behaviour(states, steps) && TearingDown(states(n), id)
    requires forall k: nat :: !(k >= n && Gone(states(k), id))
    ensures PossibleFrom(states, id, n)
  {
    hide Behaviour, Invariant, TearingDown, RankAt, MoveEnabled, IsProgress;
    forall m: nat | m >= n
      ensures ProgressPossible(states(m), id)
    {
      TeardownContinues(states, steps, id, n, m);
      BehaviourInvariant(states, steps, m);
      ProgressIsEnabled(states(m), id);
    }
  }

  /** Once shutdown or client loss reaches a session, its name is released after finitely many steps in every fair
      run, whether or not anybody consumes its responses. */
  lemma {:induction false} TeardownCompletes(states: nat -> System, steps: nat -> Option<Step>, id: Id, n: nat) returns (end: nat)
    requires Behaviour(states, steps) && Fair(states, steps, id) && TearingDown(states(n), id)
    ensures end >= n && Gone(states(end), id)
    decreases RankAt(states(n), id)
  {
    hide Behaviour, RankAt, TearingDown, ProgressMade, Gone, PossibleFrom;
    if exists m: nat :: m >= n && Gone(states(m), id) {
      end :| end >= n && Gone(states(end), id);
    } else {
      TeardownAlwaysPossible(states, steps, id, n);
      assert MadeAfter(states, steps, id, n);
      var m: nat :| m >= n && ProgressMade(states(m), steps(m), id);
      TeardownContinues(states, steps, id, n, m);
      TeardownContinues(states, steps, id, n, m + 1);
      TeardownMoment(states, steps, id, m);
      end := TeardownCompletes(states, steps, id, m + 1);
    }
  }
}
