/** The lifetime of a named-pipe handle shared by readers, writers and closers (daemon/WindowsPipeConnection.kt). */
module PipeConnection {
  import opened Bytes
  import opened Results

  /** A call on the native handle: starting an operation, waiting for or cancelling one, cancelling all, closing it. */
  datatype NativeCall = Issue(op: nat) | Use(op: nat) | CancelAll | CloseHandle

  /** What the lock protects, and the calls made on the handle so far. */
  datatype Shared = Shared(closed: bool, activeIo: int, calls: seq<NativeCall>)

  const OPEN := Shared(false, 0, [])

  /** The locked part of `transfer` that starts an operation. */
  function Registered(s: Shared, op: nat): Shared
  {
    if s.closed then s else s.(activeIo := s.activeIo + 1, calls := s.calls + [Issue(op)])
  }

  /** The locked part of `transfer` that ends a registered operation. */
  function Finished(s: Shared): Shared
  {
    s.(activeIo := s.activeIo - 1, calls := if s.closed && s.activeIo == 1 then s.calls + [CloseHandle] else s.calls)
  }

  function Closed(s: Shared): Shared
  {
    if s.closed then s
    else s.(closed := true, calls := s.calls + [CancelAll] + if s.activeIo == 0 then [CloseHandle] else [])
  }

  /** The connection object; each method is one critical section. */
  class Connection {
    var closed: bool
    var activeIo: int
    var calls: seq<NativeCall>

    function View(): Shared
      reads this
    {
      Shared(closed, activeIo, calls)
    }

    constructor ()
      ensures View() == OPEN
    {
      closed, activeIo, calls := false, 0, [];
    }

    method Register(op: nat) returns (ok: bool)
      modifies this
      ensures View() == Registered(old(View()), op) && ok == !old(closed)
    {
      if closed {
        return false;
      }
      activeIo := activeIo + 1;
      calls := calls + [Issue(op)];
      ok := true;
    }

    method Finish()
      modifies this
      ensures View() == Finished(old(View()))
    {
      activeIo := activeIo - 1;
      if closed && activeIo == 0 {
        calls := calls + [CloseHandle];
      }
    }

    method Close()
      modifies this
      ensures View() == Closed(old(View()))
    {
      if closed {
        return;
      }
      closed := true;
      calls := calls + [CancelAll];
      if activeIo == 0 {
        calls := calls + [CloseHandle];
      }
    }
  }

  /** The connection and the operations that are between their two critical sections. */
  datatype System = System(shared: Shared, registered: set<nat>)

  /** One atomic step of some thread. */
  datatype Step =
    | StartStep(op: nat)   // enter `transfer`; refused when closed
    | UseStep(op: nat)     // cancel or collect a registered operation
    | FinishStep(op: nat)  // the `finally` block of a registered operation
    | CloseStep

  predicate Enabled(s: System, step: Step)
  {
    match step
    case StartStep(op) => op !in s.registered
    case UseStep(op) => op in s.registered
    case FinishStep(op) => op in s.registered
    case CloseStep => true
  }

  function Apply(s: System, step: Step): System
    requires Enabled(s, step)
  {
    match step
    case StartStep(op) => System(Registered(s.shared, op), if s.shared.closed then s.registered else s.registered + {op})
    case UseStep(op) => s.(shared := s.shared.(calls := s.shared.calls + [Use(op)]))
    case FinishStep(op) => System(Finished(s.shared), s.registered - {op})
    case CloseStep => s.(shared := Closed(s.shared))
  }

  /** The state after `steps` from a fresh connection, if each of them is enabled in turn. */
  function After(steps: seq<Step>): Option<System>
  {
    if steps == [] then Some(System(OPEN, {}))
    else
      var before := After(steps[..|steps| - 1]);
      if before.Some? && Enabled(before.value, steps[|steps| - 1]) then Some(Apply(before.value, steps[|steps| - 1])) else None
  }

  /** The handle is closed in `calls`, at position `i`. */
  predicate ClosesAt(calls: seq<NativeCall>, i: int)
  {
    0 <= i < |calls| && calls[i].CloseHandle?
  }

  /** Closing the handle, if it happened, was the last call on it. */
  ghost predicate ClosedLast(calls: seq<NativeCall>)
  {
    forall i :: ClosesAt(calls, i) ==> i == |calls| - 1
  }

  predicate HandleClosed(s: Shared)
  {
    ClosesAt(s.calls, |s.calls| - 1)
  }

  /** After `close` has cancelled everything no operation is issued. */
  predicate NothingIssuedAfterClose(calls: seq<NativeCall>)
  {
    forall i, j :: 0 <= i < j < |calls| && calls[i].CancelAll? ==> !calls[j].Issue? && !calls[j].CancelAll?
  }

  ghost predicate Invariant(s: System)
  {
    && s.shared.activeIo == |s.registered|
    && ClosedLast(s.shared.calls)
    && (HandleClosed(s.shared) <==> s.shared.closed && s.registered == {})
    && (s.shared.closed <==> CancelAll in s.shared.calls)
    && NothingIssuedAfterClose(s.shared.calls)
    && (forall op :: op in s.registered ==> Issue(op) in s.shared.calls)
  }

  lemma AppendKeeps(calls: seq<NativeCall>, c: NativeCall)
    requires ClosedLast(calls) && !ClosesAt(calls, |calls| - 1) && NothingIssuedAfterClose(calls)
    requires CancelAll in calls ==> !c.Issue? && !c.CancelAll?
    ensures ClosedLast(calls + [c]) && NothingIssuedAfterClose(calls + [c])
  {
    assert forall i :: ClosesAt(calls + [c], i) && i < |calls| ==> ClosesAt(calls, i);
  }

  lemma StartKeepsInvariant(s: System, op: nat)
    requires Invariant(s) && op !in s.registered && !s.shared.closed
    ensures Invariant(Apply(s, StartStep(op)))
  {
    AppendKeeps(s.shared.calls, Issue(op));
    hide ClosedLast, NothingIssuedAfterClose;
    assert |s.registered + {op}| == |s.registered| + 1;
  }

  lemma UseKeepsInvariant(s: System, op: nat)
    requires Invariant(s) && op in s.registered
    ensures Invariant(Apply(s, UseStep(op)))
  {
    AppendKeeps(s.shared.calls, Use(op));
    hide ClosedLast, NothingIssuedAfterClose;
  }

  lemma FinishKeepsInvariant(s: System, op: nat)
    requires Invariant(s) && op in s.registered
    ensures Invariant(Apply(s, FinishStep(op)))
  {
    hide ClosedLast, NothingIssuedAfterClose;
    assert |s.registered - {op}| == |s.registered| - 1;
    if s.shared.closed && s.shared.activeIo == 1 {
      LastOne(s.registered, op);
      AppendKeeps(s.shared.calls, CloseHandle);
    }
  }

  lemma CloseKeepsInvariant(s: System)
    requires Invariant(s) && !s.shared.closed
    ensures Invariant(Apply(s, CloseStep))
  {
    hide ClosedLast, NothingIssuedAfterClose;
    AppendKeeps(s.shared.calls, CancelAll);
    if s.shared.activeIo == 0 {
      AppendKeeps(s.shared.calls + [CancelAll], CloseHandle);
    } else {
      assert s.shared.calls + [CancelAll] + [] == s.shared.calls + [CancelAll];
    }
  }

  lemma StepKeepsInvariant(s: System, step: Step)
    requires Invariant(s) && Enabled(s, step)
    ensures Invariant(Apply(s, step))
  {
    match step
    case StartStep(op) =>
      if !s.shared.closed {
        StartKeepsInvariant(s, op);
      }
    case UseStep(op) =>
      UseKeepsInvariant(s, op);
    case FinishStep(op) =>
      FinishKeepsInvariant(s, op);
    case CloseStep =>
      if !s.shared.closed {
        CloseKeepsInvariant(s);
      }
  }

  lemma LastOne(ops: set<nat>, op: nat)
    requires op in ops && |ops| == 1
    ensures ops - {op} == {}
  {
    assert |ops - {op}| == 0;
  }

  lemma {:induction false} RunKeepsInvariant(steps: seq<Step>, s: System)
    requires After(steps) == Some(s)
    ensures Invariant(s)
    decreases |steps|
  {
    if steps != [] {
      var before := After(steps[..|steps| - 1]).value;
      RunKeepsInvariant(steps[..|steps| - 1], before);
      StepKeepsInvariant(before, steps[|steps| - 1]);
    }
  }

  /** In every interleaving: the handle is closed at most once and is never used afterwards, it is closed exactly when
      the connection is closed and no operation is registered, and no operation is issued after `close`. */
  lemma HandleLifetime(steps: seq<Step>, s: System)
    requires After(steps) == Some(s)
    ensures forall i, j :: ClosesAt(s.shared.calls, i) && ClosesAt(s.shared.calls, j) ==> i == j
    ensures forall i :: ClosesAt(s.shared.calls, i) ==> i == |s.shared.calls| - 1
    ensures (exists i :: ClosesAt(s.shared.calls, i)) <==> s.shared.closed && s.registered == {}
    ensures forall i, j :: 0 <= i < j < |s.shared.calls| && s.shared.calls[i].CancelAll? ==> !s.shared.calls[j].Issue?
    ensures s.shared.closed <==> CloseStep in steps
    ensures s.shared.closed <==> CancelAll in s.shared.calls
    ensures forall op :: op in s.registered ==> Issue(op) in s.shared.calls
    ensures forall op :: Issue(op) in s.shared.calls ==> StartStep(op) in steps
  {
    RunKeepsInvariant(steps, s);
    ClosedByClose(steps, s);
    IssuedByStart(steps, s);
  }

  lemma {:induction false} IssuedByStart(steps: seq<Step>, s: System)
    requires After(steps) == Some(s)
    ensures forall op :: Issue(op) in s.shared.calls ==> StartStep(op) in steps
    decreases |steps|
  {
    if steps != [] {
      var n := |steps| - 1;
      var before := After(steps[..n]).value;
      IssuedByStart(steps[..n], before);
      assert steps == steps[..n] + [steps[n]];
      IssuedByStep(before, steps[n]);
    }
  }

  lemma IssuedByStep(s: System, step: Step)
    requires Enabled(s, step)
    ensures forall op :: Issue(op) in Apply(s, step).shared.calls ==> Issue(op) in s.shared.calls || step == StartStep(op)
  {}

  /** An operation started on an open connection is issued and can be finished; on a closed one nothing happens. */
  lemma StartIssues(s: System, op: nat)
    requires Enabled(s, StartStep(op))
    ensures var s' := Apply(s, StartStep(op));
            if s.shared.closed then s' == s
            else op in s'.registered && s'.shared.calls == s.shared.calls + [Issue(op)] && Enabled(s', FinishStep(op))
  {}

  lemma {:induction false} ClosedByClose(steps: seq<Step>, s: System)
    requires After(steps) == Some(s)
    ensures s.shared.closed <==> CloseStep in steps
    decreases |steps|
  {
    if steps != [] {
      var before := After(steps[..|steps| - 1]).value;
      ClosedByClose(steps[..|steps| - 1], before);
      assert steps == steps[..|steps| - 1] + [steps[|steps| - 1]];
    }
  }

  const MAX_CHUNK := 65_536

  /** What one native write of `n` bytes comes to: `moved` bytes reached the pipe, and whether the call succeeded. */
  datatype Answer = Answer(moved: nat, ok: bool)

  /** The answer to the k-th write when it asks for `n` bytes. */
  type Kernel = (nat, nat) -> Answer

  ghost predicate NeverMovesTooMuch(kernel: Kernel)
  {
    forall k: nat, n: nat :: kernel(k, n).moved <= n
  }

  /** The answer lets the loop go on. */
  predicate Progress(a: Answer)
  {
    a.ok && a.moved > 0
  }

  class Pipe {
    var written: Bytes
    var requests: seq<nat>

    constructor ()
      ensures written == [] && requests == []
    {
      written, requests := [], [];
    }

    /** `transfer` of a chunk; an operation that failed or timed out may still have moved bytes. */
    method Transfer(chunk: Bytes, kernel: Kernel) returns (count: Option<nat>)
      requires NeverMovesTooMuch(kernel)
      modifies this
      ensures var a := kernel(|old(requests)|, |chunk|);
              && requests == old(requests) + [|chunk|]
              && written == old(written) + chunk[..a.moved]
              && count == (if Progress(a) then Some(a.moved) else None)
      ensures count.Some? ==> 0 < count.value <= |chunk|
    {
      var a := kernel(|requests|, |chunk|);
      requests := requests + [|chunk|];
      written := written + chunk[..a.moved];
      count := if Progress(a) then Some(a.moved) else None;
    }

    /** The chunking `write`. Whatever happens a prefix of the bytes reaches the pipe, in order, in chunks of at most
        65536. All of them do unless the range is wrong, a native write fails, or one makes no progress. */
    method Write(bytes: array<bv8>, offset: int, length: int, kernel: Kernel) returns (ok: bool)
      requires NeverMovesTooMuch(kernel)
      modifies this
      ensures !(0 <= offset && 0 <= length && offset + length <= bytes.Length) ==>
                !ok && written == old(written) && requests == old(requests)
      ensures 0 <= offset && 0 <= length && offset + length <= bytes.Length ==>
                && Chunks(old(requests), requests) && |requests| <= |old(requests)| + length
                && (ok ==> written == old(written) + bytes[offset..offset + length])
                && old(written) <= written && written[|old(written)|..] <= bytes[offset..offset + length]
                && (ok <==> AllProgress(kernel, |old(requests)|, requests))
    {
      hide Chunks, AllProgress, Progress;
      if offset < 0 || length < 0 || offset + length > bytes.Length {
        return false;
      }
      ghost var data := bytes[offset..offset + length];
      NothingYet(requests, kernel);
      var done := 0;
      while done < length
        invariant 0 <= done <= length
        invariant Chunks(old(requests), requests) && |requests| <= |old(requests)| + done
        invariant AllProgress(kernel, |old(requests)|, requests)
        invariant written == old(written) + data[..done]
      {
        var n := if length - done < MAX_CHUNK then length - done else MAX_CHUNK;
        ghost var before := requests;
        var chunk := bytes[offset + done..offset + done + n];
        SliceOfSlice(bytes, offset, length, done, n);
        var count := Transfer(chunk, kernel);
        Extend(old(written), data, done, n, kernel(|before|, n).moved);
        OneMore(old(requests), before, n, kernel);
        if count.None? {
          return false;
        }
        done := done + count.value;
      }
      assert data[..done] == data;
      ok := true;
    }
  }

  /** `requests` continues `earlier` with chunk sizes in range. */
  predicate Chunks(earlier: seq<nat>, requests: seq<nat>)
  {
    earlier <= requests && forall k :: |earlier| <= k < |requests| ==> 0 < requests[k] <= MAX_CHUNK
  }

  /** The kernel moved every request from the `first` on. */
  predicate AllProgress(kernel: Kernel, first: nat, requests: seq<nat>)
  {
    forall k :: first <= k < |requests| ==> Progress(kernel(k, requests[k]))
  }

  lemma NothingYet(requests: seq<nat>, kernel: Kernel)
    ensures Chunks(requests, requests) && AllProgress(kernel, |requests|, requests)
  {}

  lemma SliceOfSlice(bytes: array<bv8>, offset: nat, length: nat, done: nat, n: nat)
    requires offset + length <= bytes.Length && done + n <= length
    ensures bytes[offset + done..offset + done + n] == bytes[offset..offset + length][done..done + n]
  {
    var whole := bytes[offset..offset + length];
    var part := bytes[offset + done..offset + done + n];
    assert forall i :: 0 <= i < n ==> part[i] == whole[done..done + n][i];
  }

  lemma OneMore(earlier: seq<nat>, requests: seq<nat>, n: nat, kernel: Kernel)
    requires Chunks(earlier, requests) && AllProgress(kernel, |earlier|, requests) && 0 < n <= MAX_CHUNK
    ensures Chunks(earlier, requests + [n])
    ensures AllProgress(kernel, |earlier|, requests + [n]) == Progress(kernel(|requests|, n))
  {
    assert (requests + [n])[|requests|] == n;
  }

  lemma Extend(sent: Bytes, data: Bytes, done: nat, n: nat, moved: nat)
    requires moved <= n && done + n <= |data|
    ensures sent + data[..done] + data[done..done + n][..moved] == sent + data[..done + moved]
    ensures (sent + data[..done + moved])[|sent|..] == data[..done + moved] <= data
  {}
}
