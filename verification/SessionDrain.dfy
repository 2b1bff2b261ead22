/** How teardown begins, and that a drain completes (server.rs, main.rs). */
module SessionDrain {
  import opened Results
  import opened SessionProtocol
  import opened SessionRuns

  // ------------------------------------------------------------ what triggers it

  /** The end of accepting and a shutdown request reach every session that holds a name. */
  lemma ShutdownReachesEverySession(s: System, step: Step, id: Id)
    requires Enabled(s, step) && (step.StopAccepting? || step.RequestShutdown?)
    requires id in s.sessions && Holding(s.sessions[id])
    ensures TearingDown(Apply(s, step), id)
  {}

  /** A connection that ends or stops streaming reaches its own session. */
  lemma LostClientReachesItsSession(s: System, step: Step)
    requires Enabled(s, step) && (step.ConnectionEnds? || step.StopStreaming?)
    requires step.id in s.sessions && Holding(s.sessions[step.id])
    ensures TearingDown(Apply(s, step), step.id)
  {}

  /** From accepting, with all connections joined, `main` can go on to wait for the sessions. */
  lemma DrainBegins(s: System)
    requires s.main == Accepting && forall id :: id in s.connections ==> s.connections[id] == Joined
    ensures Enabled(s, StopAccepting) && Enabled(Apply(s, StopAccepting), ConnectionsJoined)
    ensures Apply(Apply(s, StopAccepting), ConnectionsJoined) == s.(main := WaitingForSessions, shutdown := true)
  {}

  // ---------------------------------------------------------------------- drain

  ghost predicate AllFair(states: nat -> System, steps: nat -> Option<Step>)
  {
    forall id: Id :: Fair(states, steps, id)
  }

  ghost predicate SeenFrom(states: nat -> System, n: nat)
  {
    forall m: nat :: m >= n ==> Enabled(states(m), ObserveEmpty)
  }

  ghost predicate ObservedAfter(steps: nat -> Option<Step>, n: nat)
  {
    exists m: nat :: m >= n && steps(m) == Some(ObserveEmpty)
  }

  /** The waiting loop of `main` is scheduled: a set that stays empty is seen. */
  ghost predicate MainIsFair(states: nat -> System, steps: nat -> Option<Step>)
  {
    forall n: nat :: SeenFrom(states, n) ==> ObservedAfter(steps, n)
  }

  ghost predicate NoTimeout(steps: nat -> Option<Step>)
  {
    forall m: nat :: steps(m) != Some(DrainTimeout)
  }

  /** The connections are joined, and the drain has not timed out. */
  predicate Waiting(s: System)
  {
    s.main == WaitingForSessions || s.main == Exited(true)
  }

  /** While `main` waits no session appears, and none that is gone comes back. */
  lemma WaitingStep(s: System, step: Step)
    requires Invariant(s) && Waiting(s) && Enabled(s, step) && step != DrainTimeout
    ensures Waiting(Apply(s, step)) && Apply(s, step).sessions.Keys == s.sessions.Keys
    ensures forall id :: Gone(s, id) ==> Gone(Apply(s, step), id)
  {
    hide HeldNames, OneOwner, Consistent, Moved, MoveEnabled, Freed;
    if step.OfSession? && Gone(s, step.id) {
      GoneStays(s.sessions[step.id], s.shutdown, step.move);
    }
  }

  lemma GoneStays(x: Session, shutdown: bool, move: SessionStep)
    requires x.phase == Released && MoveEnabled(x, shutdown, move)
    ensures Moved(x, move).phase == Released
  {
    OnlyReaderAndClientMove(x, shutdown, move);
    hide MoveEnabled;
  }

  lemma OnlyReaderAndClientMove(x: Session, shutdown: bool, move: SessionStep)
    requires x.phase == Released && MoveEnabled(x, shutdown, move)
    ensures move.ReadPacket? || move.ReadFails? || move.ReadInterrupted? || move.SendCompletes? || move.SendGivesUp? || move.Consume?
  {
    hide Moved;
  }

  lemma {:induction false} WaitingContinues(states: nat -> System, steps: nat -> Option<Step>, n: nat, m: nat)
    requires Behaviour(states, steps) && NoTimeout(steps) && Waiting(states(n)) && n <= m
    ensures Waiting(states(m)) && states(m).sessions.Keys == states(n).sessions.Keys
    ensures forall id :: Gone(states(n), id) ==> Gone(states(m), id)
    decreases m
  {
    hide Waiting, Invariant, Gone, Apply, Enabled;
    if n < m {
      WaitingContinues(states, steps, n, m - 1);
      BehaviourInvariant(states, steps, m - 1);
      assert Advances(states, steps, m - 1);
      assert steps(m - 1) != Some(DrainTimeout);
      if steps(m - 1).Some? {
        WaitingStep(states(m - 1), steps(m - 1).value);
      }
    }
  }

  /** Each session of a waiting daemon is gone at some point. */
  lemma SessionGoes(states: nat -> System, steps: nat -> Option<Step>, n: nat, id: Id) returns (end: nat)
    requires Behaviour(states, steps) && AllFair(states, steps) && Waiting(states(n)) && id in states(n).sessions
    ensures end >= n && Gone(states(end), id)
  {
    hide Behaviour, Fair, HeldNames, OneOwner, Consistent;
    BehaviourInvariant(states, steps, n);
    if Gone(states(n), id) {
      end := n;
    } else {
      end := TeardownCompletes(states, steps, id, n);
    }
  }

  /** All of some sessions are gone at some point. */
  lemma {:induction false} SessionsGo(states: nat -> System, steps: nat -> Option<Step>, n: nat, ids: set<Id>) returns (end: nat)
    requires Behaviour(states, steps) && AllFair(states, steps) && NoTimeout(steps) && Waiting(states(n))
    requires forall id :: id in ids ==> id in states(n).sessions
    ensures end >= n && forall id :: id in ids ==> Gone(states(end), id)
    decreases ids
  {
    hide Behaviour, AllFair, NoTimeout, Waiting, Gone;
    end := n;
    if ids != {} {
      var id :| id in ids;
      var first := SessionsGo(states, steps, n, ids - {id});
      WaitingContinues(states, steps, n, first);
      assert states(first).sessions.Keys == states(n).sessions.Keys;
      end := SessionGoes(states, steps, first, id);
      WaitingContinues(states, steps, first, end);
    }
  }

  lemma EmptyOnceAllGone(s: System)
    requires Invariant(s) && forall id :: id in s.sessions ==> Gone(s, id)
    ensures s.active == {}
  {
    hide Consistent, OneOwner;
  }

  /** From some point on nobody holds a name. */
  lemma EmptyFromSomePoint(states: nat -> System, steps: nat -> Option<Step>, n: nat) returns (end: nat)
    requires Behaviour(states, steps) && AllFair(states, steps) && NoTimeout(steps) && Waiting(states(n))
    ensures end >= n && forall m: nat :: m >= end ==> Waiting(states(m)) && states(m).active == {}
  {
    hide Behaviour, AllFair, NoTimeout, Waiting, Gone, Invariant;
    end := SessionsGo(states, steps, n, states(n).sessions.Keys);
    WaitingContinues(states, steps, n, end);
    forall m: nat | m >= end
      ensures Waiting(states(m)) && states(m).active == {}
    {
      WaitingContinues(states, steps, end, m);
      BehaviourInvariant(states, steps, m);
      assert states(m).sessions.Keys == states(n).sessions.Keys;
      EmptyOnceAllGone(states(m));
    }
  }

  lemma ObservingExits(states: nat -> System, steps: nat -> Option<Step>, m: nat)
    requires Behaviour(states, steps) && steps(m) == Some(ObserveEmpty)
    ensures states(m + 1).main == Exited(true)
  {
    assert Advances(states, steps, m);
  }

  lemma NotSeenForever(states: nat -> System, steps: nat -> Option<Step>, n: nat)
    requires Behaviour(states, steps) && MainIsFair(states, steps)
    ensures !SeenFrom(states, n)
  {
    hide Behaviour;
    if SeenFrom(states, n) {
      var m: nat :| m >= n && steps(m) == Some(ObserveEmpty);
      ObservingExits(states, steps, m);
    }
  }

  /** Once the connections are joined, the drain ends with `sessions_drained=true` in every fair run that does not time out. */
  lemma DrainCompletes(states: nat -> System, steps: nat -> Option<Step>, n: nat) returns (end: nat)
    requires Behaviour(states, steps) && AllFair(states, steps) && MainIsFair(states, steps) && NoTimeout(steps)
    requires states(n).main == WaitingForSessions
    ensures end >= n && states(end).main == Exited(true)
  {
    hide Behaviour, AllFair, MainIsFair, NoTimeout;
    var empty := EmptyFromSomePoint(states, steps, n);
    NotSeenForever(states, steps, empty);
    end :| end >= empty && !Enabled(states(end), ObserveEmpty);
    assert Waiting(states(end)) && states(end).active == {};
  }
}
