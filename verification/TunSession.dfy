/** Closing a TUN session: the cleanup hook runs at most once, however many clones call `close` (session.rs). */
module TunSession {
  import opened Results

  /** The cleanup hook of the platform; it reports whether it succeeded. */
  datatype Hook = Hook(succeeds: bool)

  /** The state the clones of one `TunSession` share. `runs` counts the executions of the hook. */
  datatype Shared = Shared(closed: bool, interrupted: bool, hook: Option<Hook>, runs: nat)

  /** Where one call of `close` stands. */
  datatype Call = NotCalled | Entered | Triggered | Took(hook: Option<Hook>) | Returned(ok: bool)

  datatype State = State(shared: Shared, calls: seq<Call>)

  /** One atomic action of call `c`: the swap of the flag, the interrupt, taking the hook under its lock, running it. */
  ghost predicate Acts(s: State, c: nat, s': State)
  {
    c < |s.calls| &&
    match s.calls[c]
    case NotCalled =>
      s' == State(s.shared.(closed := true), s.calls[c := if s.shared.closed then Returned(true) else Entered])
    case Entered =>
      s' == State(s.shared.(interrupted := true), s.calls[c := Triggered])
    case Triggered =>
      s' == State(s.shared.(hook := None), s.calls[c := Took(s.shared.hook)])
    case Took(hook) =>
      if hook.None? then s' == s.(calls := s.calls[c := Returned(true)])
      else s' == State(s.shared.(runs := s.shared.runs + 1), s.calls[c := Returned(hook.value.succeeds)])
    case Returned(_) => false
  }

  predicate IsWinner(call: Call)
  {
    call.Entered? || call.Triggered? || call.Took?
  }

  /** Once somebody entered, exactly one call is past the swap, or it has finished and run the hook. */
  ghost predicate Invariant(s: State, hook: Hook)
  {
    && (forall a, b :: 0 <= a < b < |s.calls| ==> !(IsWinner(s.calls[a]) && IsWinner(s.calls[b])))
    && (forall a :: 0 <= a < |s.calls| && IsWinner(s.calls[a]) ==> s.shared.closed && s.shared.runs == 0)
    && (forall a :: 0 <= a < |s.calls| && (s.calls[a].Entered? || s.calls[a].Triggered?) ==> s.shared.hook == Some(hook))
    && (forall a :: 0 <= a < |s.calls| && s.calls[a].Triggered? ==> s.shared.interrupted)
    && (forall a :: 0 <= a < |s.calls| && s.calls[a].Took? ==> s.calls[a] == Took(Some(hook)) && s.shared.hook.None? && s.shared.interrupted)
    && (!s.shared.closed ==> s.shared.hook == Some(hook) && s.shared.runs == 0 && forall a :: 0 <= a < |s.calls| ==> s.calls[a] == NotCalled)
    && (s.shared.closed && (forall a :: 0 <= a < |s.calls| ==> !IsWinner(s.calls[a])) ==> s.shared.runs == 1 && s.shared.interrupted)
    && (forall a :: 0 <= a < |s.calls| && s.calls[a] == Returned(false) ==> !hook.succeeds)
  }

  function Fresh(hook: Hook, callers: nat): State
  {
    State(Shared(false, false, Some(hook), 0), seq(callers, _ => NotCalled))
  }

  /** A call that is past the swap acts alone. */
  lemma WinnerIsAlone(s: State, c: nat, hook: Hook)
    requires Invariant(s, hook) && c < |s.calls| && IsWinner(s.calls[c])
    ensures forall a :: 0 <= a < |s.calls| && a != c ==> !IsWinner(s.calls[a])
  {
    forall a | 0 <= a < |s.calls| && a != c
      ensures !IsWinner(s.calls[a])
    {
      assert a < c || c < a;
    }
  }

  lemma WinnerKeepsInvariant(s: State, c: nat, s': State, hook: Hook)
    requires Invariant(s, hook) && Acts(s, c, s') && IsWinner(s.calls[c])
    ensures Invariant(s', hook)
  {
    WinnerIsAlone(s, c, hook);
    assert forall a :: 0 <= a < |s.calls| && a != c ==> s'.calls[a] == s.calls[a];
    assert IsWinner(s'.calls[c]) || s'.calls[c].Returned?;
  }

  lemma ActKeepsInvariant(s: State, c: nat, s': State, hook: Hook)
    requires Invariant(s, hook) && Acts(s, c, s')
    ensures Invariant(s', hook)
  {
    if IsWinner(s.calls[c]) {
      WinnerKeepsInvariant(s, c, s', hook);
    } else {
      assert forall a :: 0 <= a < |s.calls| && a != c ==> s'.calls[a] == s.calls[a];
      assert IsWinner(s'.calls[c]) <==> !s.shared.closed;
    }
  }

  /** Any interleaving of the actions of any number of callers. */
  ghost predicate Run(states: seq<State>, callers: seq<nat>)
  {
    |states| == |callers| + 1 && forall i :: 0 <= i < |callers| ==> Acts(states[i], callers[i], states[i + 1])
  }

  lemma {:induction false} RunInvariant(states: seq<State>, callers: seq<nat>, hook: Hook, n: nat)
    requires Run(states, callers) && Invariant(states[0], hook) && n < |states|
    ensures Invariant(states[n], hook)
  {
    hide Invariant, Acts;
    if n > 0 {
      RunInvariant(states, callers, hook, n - 1);
      ActKeepsInvariant(states[n - 1], callers[n - 1], states[n], hook);
    }
  }

  /** In every interleaving the hook runs at most once, and exactly once when some call was made and none is under way. */
  lemma HookRunsOnce(states: seq<State>, callers: seq<nat>, hook: Hook, clones: nat, n: nat)
    requires Run(states, callers) && states[0] == Fresh(hook, clones) && n < |states|
    ensures states[n].shared.runs <= 1
    ensures (forall a :: 0 <= a < |states[n].calls| ==> states[n].calls[a].NotCalled? || states[n].calls[a].Returned?)
            ==> states[n].shared.runs == (if states[n].shared.closed then 1 else 0)
  {
    hide Run;
    assert Invariant(Fresh(hook, clones), hook);
    RunInvariant(states, callers, hook, n);
    var s := states[n];
    if exists a :: 0 <= a < |s.calls| && IsWinner(s.calls[a]) {
      var a :| 0 <= a < |s.calls| && IsWinner(s.calls[a]);
    }
  }

  // ------------------------------------------------------------- one call

  /** What one uninterrupted call makes of the shared state. */
  function AfterClose(s: Shared): Shared
  {
    if s.closed then s else Shared(true, true, None, if s.hook.Some? then s.runs + 1 else s.runs)
  }

  /** The session object, as its clones share it. */
  class Session {
    var closed: bool
    var interrupted: bool
    var hook: Option<Hook>
    var runs: nat

    function View(): Shared
      reads this
    {
      Shared(closed, interrupted, hook, runs)
    }

    constructor (cleanup: Hook)
      ensures View() == Fresh(cleanup, 0).shared
    {
      closed, interrupted, hook, runs := false, false, Some(cleanup), 0;
    }

    /** `close`: the first call interrupts, takes the hook out and runs it, and reports its result; later calls do nothing. */
    method Close() returns (ok: bool)
      modifies this
      ensures View() == AfterClose(old(View()))
      ensures ok == (old(closed) || old(hook).None? || old(hook).value.succeeds)
    {
      var before := closed;
      closed := true;
      if before {
        return true;
      }
      interrupted := true;
      var cleanup := hook;
      hook := None;
      ok := true;
      if cleanup.Some? {
        runs := runs + 1;
        ok := cleanup.value.succeeds;
      }
    }
  }

  /** The call is a run of its atomic actions with nobody in between. */
  lemma CloseIsItsActions(s: State, c: nat) returns (states: seq<State>, callers: seq<nat>)
    requires c < |s.calls| && s.calls[c] == NotCalled
    ensures Run(states, callers) && states[0] == s && forall i :: 0 <= i < |callers| ==> callers[i] == c
    ensures states[|callers|].shared == AfterClose(s.shared)
    ensures exists ok :: states[|callers|].calls == s.calls[c := Returned(ok)]
  {
    var s1 := State(s.shared.(closed := true), s.calls[c := if s.shared.closed then Returned(true) else Entered]);
    if s.shared.closed {
      states, callers := [s, s1], [c];
    } else {
      var s2 := State(s1.shared.(interrupted := true), s1.calls[c := Triggered]);
      var s3 := State(s2.shared.(hook := None), s2.calls[c := Took(s2.shared.hook)]);
      var s4 := if s2.shared.hook.None? then s3.(calls := s3.calls[c := Returned(true)])
                else State(s3.shared.(runs := s3.shared.runs + 1), s3.calls[c := Returned(s2.shared.hook.value.succeeds)]);
      states, callers := [s, s1, s2, s3, s4], [c, c, c, c];
    }
  }
}
