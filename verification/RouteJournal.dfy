/** The undo journal over the kernel routing table (platform/routes_macos.rs, `SessionRoutes`).
    A request that reports an error may or may not have taken effect. */
module RouteJournal {
  import opened Results
  import opened RoutingMessage
  import opened RouteSnapshot
  import opened RoutePath

  /** The kernel table: at most one entry per key. */
  type Table = map<RouteKey, Snapshot>

  ghost predicate ValidTable(t: Table)
  {
    forall k :: k in t ==> Key(t[k]) == Ok(k)
  }

  function Lookup(t: Table, k: RouteKey): Option<Snapshot>
  {
    if k in t then Some(t[k]) else None
  }

  /** A request that a faultless kernel carries out. */
  predicate Possible(t: Table, route: Snapshot, operation: bv8)
  {
    Message(route, operation).Ok? && Key(route).Ok? && (operation == RTM_ADD <==> Key(route).value !in t)
  }

  /** How a request is answered; `Absent` is ESRCH. */
  datatype Reply = Done | Absent | Failed

  /** One request. ADD needs an absent key and DELETE a present one; an error hides whether the change was made. */
  ghost predicate Requested(t: Table, route: Snapshot, operation: bv8, t': Table, reply: Reply)
  {
    if Message(route, operation).Err? || Key(route).Err? then t' == t && reply == Failed
    else
      var k, m := Key(route).value, Message(route, operation).value;
      if operation == RTM_ADD then
        if k in t then t' == t && reply == Failed
        else (reply == Done && t' == t[k := m]) || (reply == Failed && (t' == t || t' == t[k := m]))
      else if k !in t then t' == t && reply != Done
      else (reply == Done && t' == t - {k}) || (reply == Failed && (t' == t || t' == t - {k}))
  }

  /** A request touches only the key of its route, and keeps the table well keyed. */
  lemma RequestFrame(t: Table, route: Snapshot, operation: bv8, t': Table, reply: Reply)
    requires ValidTable(t) && Requested(t, route, operation, t', reply)
    ensures ValidTable(t')
    ensures forall k :: Key(route) != Ok(k) ==> Lookup(t', k) == Lookup(t, k)
  {
    hide Key, Message;
    if Message(route, operation).Ok? {
      RequestKeepsKey(route, operation);
    }
  }

  /** `RouteChange` */
  datatype Change = Change(key: RouteKey, route: Snapshot, previous: Option<Snapshot>, attempted: bool)

  type Journal = seq<Change>

  predicate Journaled(j: Journal, k: RouteKey)
  {
    exists i :: 0 <= i < |j| && j[i].key == k
  }

  /** `SessionRoutes::add`: record, delete the displaced entry, add the session's route. */
  ghost predicate Added(t: Table, j: Journal, route: Snapshot, t': Table, j': Journal, ok: bool)
  {
    if Key(route).Err? then t' == t && j' == j && !ok
    else if Journaled(j, Key(route).value) then t' == t && j' == j && ok
    else
      var k := Key(route).value;
      // The lookup failed, or the displaced entry could not be recreated later.
      || (t' == t && j' == j && !ok)
      || (k !in t && j' == j + [Change(k, route, None, true)] && AddRequested(t, route, t', ok))
      || (k in t && Message(t[k], RTM_ADD).Ok? && Replaced(t, j, k, route, t', j', ok))
  }

  /** What an add needs besides the kernel's cooperation: a route that can be keyed and sent, and a backup that can be
      sent again. */
  predicate Addable(t: Table, j: Journal, route: Snapshot)
  {
    && Key(route).Ok?
    && (Journaled(j, Key(route).value)
        || (Message(route, RTM_ADD).Ok? && (Key(route).value in t ==> Message(t[Key(route).value], RTM_ADD).Ok?)))
  }

  ghost predicate AddRequested(t: Table, route: Snapshot, t': Table, ok: bool)
  {
    exists reply :: Requested(t, route, RTM_ADD, t', reply) && ok == reply.Done?
  }

  ghost predicate Replaced(t: Table, j: Journal, k: RouteKey, route: Snapshot, t': Table, j': Journal, ok: bool)
    requires k in t
  {
    exists t1, reply ::
      && Requested(t, t[k], RTM_DELETE, t1, reply)
      && (if reply == Done
          then j' == j + [Change(k, route, Some(t[k]), true)] && AddRequested(t1, route, t', ok)
          else j' == j + [Change(k, route, Some(t[k]), false)] && t' == t1 && !ok)
  }

  // --------------------------------------------------------------- invariant

  predicate DistinctKeys(j: Journal)
  {
    forall a, b :: 0 <= a < b < |j| ==> j[a].key != j[b].key
  }

  /** A journal entry is well keyed, and its backup can be put back. */
  predicate ValidChange(c: Change)
  {
    && Key(c.route) == Ok(c.key)
    && (c.previous.Some? ==> Key(c.previous.value) == Ok(c.key) && Message(c.previous.value, RTM_ADD).Ok?)
    && (!c.attempted ==> c.previous.Some?)
  }

  predicate ValidJournal(j: Journal)
  {
    DistinctKeys(j) && forall i :: 0 <= i < |j| ==> ValidChange(j[i])
  }

  /** What the table can hold at a journaled key: the untouched backup, nothing, or the session's route. */
  predicate Underway(c: Change, entry: Option<Snapshot>)
  {
    if c.attempted then entry.None? || (Message(c.route, RTM_ADD).Ok? && entry.value == Message(c.route, RTM_ADD).value)
    else entry.None? || entry == c.previous
  }

  /** The journal explains every difference between the table before the session and the table now. */
  ghost predicate Explains(before: Table, now: Table, j: Journal)
  {
    && ValidJournal(j)
    && (forall i :: 0 <= i < |j| ==> j[i].previous == Lookup(before, j[i].key) && Underway(j[i], Lookup(now, j[i].key)))
    && (forall k :: !Journaled(j, k) ==> Lookup(now, k) == Lookup(before, k))
  }

  lemma EmptyJournalExplains(t: Table)
    ensures Explains(t, t, [])
  {}

  /** One more change, made at a key that was not journaled. */
  lemma ExtendJournal(before: Table, now: Table, j: Journal, c: Change, now': Table)
    requires Explains(before, now, j) && !Journaled(j, c.key) && ValidChange(c)
    requires c.previous == Lookup(before, c.key) && Underway(c, Lookup(now', c.key))
    requires forall k :: k != c.key ==> Lookup(now', k) == Lookup(now, k)
    ensures Explains(before, now', j + [c])
  {
    hide Key, Message;
    var j' := j + [c];
    assert j'[|j|].key == c.key;
    forall k | !Journaled(j', k)
      ensures Lookup(now', k) == Lookup(before, k)
    {
      assert k != c.key;
      assert forall i :: 0 <= i < |j| ==> j'[i].key == j[i].key;
    }
    forall i | 0 <= i < |j'|
      ensures j'[i].previous == Lookup(before, j'[i].key) && Underway(j'[i], Lookup(now', j'[i].key)) && ValidChange(j'[i])
    {
      if i < |j| {
        assert j[i].key != c.key;
      }
    }
  }

  /** Every `add`, successful or failing at any point, leaves the journal able to explain the table. */
  lemma AddKeepsExplaining(before: Table, now: Table, j: Journal, route: Snapshot, now': Table, j': Journal, ok: bool)
    requires ValidTable(now) && Explains(before, now, j) && Added(now, j, route, now', j', ok)
    ensures ValidTable(now') && Explains(before, now', j')
  {
    hide Key, Message;
    if j' != j {
      var k := Key(route).value;
      assert Lookup(now, k) == Lookup(before, k);
      if k !in now {
        var reply :| Requested(now, route, RTM_ADD, now', reply);
        RequestFrame(now, route, RTM_ADD, now', reply);
        ExtendJournal(before, now, j, Change(k, route, None, true), now');
      } else {
        ReplaceKeepsExplaining(before, now, j, k, route, now', j', ok);
      }
    }
  }

  lemma ReplaceKeepsExplaining(before: Table, now: Table, j: Journal, k: RouteKey, route: Snapshot, now': Table, j': Journal, ok: bool)
    requires ValidTable(now) && Explains(before, now, j) && Key(route) == Ok(k) && !Journaled(j, k)
    requires k in now && Message(now[k], RTM_ADD).Ok? && Replaced(now, j, k, route, now', j', ok)
    ensures ValidTable(now') && Explains(before, now', j')
  {
    hide Key, Message;
    assert Lookup(now, k) == Lookup(before, k);
    var t1, reply :|
      && Requested(now, now[k], RTM_DELETE, t1, reply)
      && (if reply == Done
          then j' == j + [Change(k, route, Some(now[k]), true)] && AddRequested(t1, route, now', ok)
          else j' == j + [Change(k, route, Some(now[k]), false)] && now' == t1 && !ok);
    RequestFrame(now, now[k], RTM_DELETE, t1, reply);
    if reply == Done {
      var second :| Requested(t1, route, RTM_ADD, now', second);
      RequestFrame(t1, route, RTM_ADD, now', second);
      ExtendJournal(before, now, j, Change(k, route, Some(now[k]), true), now');
    } else {
      ExtendJournal(before, now, j, Change(k, route, Some(now[k]), false), now');
    }
  }

  /** Any number of adds; `oks` is what each of them reported. */
  ghost predicate AddRun(t: Table, j: Journal, routes: seq<Snapshot>, t': Table, j': Journal, oks: seq<bool>)
    decreases |routes|
  {
    && |oks| == |routes|
    && (if routes == [] then t' == t && j' == j
        else
          var n := |routes| - 1;
          exists t1, j1 :: AddRun(t, j, routes[..n], t1, j1, oks[..n]) && Added(t1, j1, routes[n], t', j', oks[n]))
  }

  lemma {:induction false} RunKeepsExplaining(before: Table, t: Table, j: Journal, routes: seq<Snapshot>, t': Table, j': Journal, oks: seq<bool>)
    requires ValidTable(t) && Explains(before, t, j) && AddRun(t, j, routes, t', j', oks)
    ensures ValidTable(t') && Explains(before, t', j')
    decreases |routes|
  {
    hide Key, Message, Explains, Added;
    if routes != [] {
      var n := |routes| - 1;
      var t1, j1 :| AddRun(t, j, routes[..n], t1, j1, oks[..n]) && Added(t1, j1, routes[n], t', j', oks[n]);
      RunKeepsExplaining(before, t, j, routes[..n], t1, j1, oks[..n]);
      AddKeepsExplaining(before, t1, j1, routes[n], t', j', oks[n]);
    }
  }

  lemma AddRunSnoc(t: Table, j: Journal, routes: seq<Snapshot>, t1: Table, j1: Journal, oks: seq<bool>, route: Snapshot, t': Table, j': Journal, ok: bool)
    requires AddRun(t, j, routes, t1, j1, oks) && Added(t1, j1, route, t', j', ok)
    ensures AddRun(t, j, routes + [route], t', j', oks + [ok])
  {
    hide Added;
    var all, reports := routes + [route], oks + [ok];
    assert all[..|routes|] == routes && reports[..|oks|] == oks;
    assert AddRun(t, j, all[..|routes|], t1, j1, reports[..|oks|]) && Added(t1, j1, all[|routes|], t', j', reports[|oks|]);
  }

  // ------------------------------------------------------- adds among edits

  /** What happens to the table while a session is set up: an add, or an outsider's edit. */
  datatype Event = AddRoute(route: Snapshot, ok: bool) | Edit

  /** Any interleaving of adds and edits. */
  ghost predicate EditedRun(t: Table, events: seq<Event>, t': Table, j': Journal)
    decreases |events|
  {
    if events == [] then t' == t && j' == []
    else
      var n := |events| - 1;
      exists t1, j1 :: EditedRun(t, events[..n], t1, j1) && Happened(t1, j1, events[n], t', j')
  }

  /** An edit may turn the table into any other. */
  ghost predicate Happened(t: Table, j: Journal, event: Event, t': Table, j': Journal)
  {
    match event
    case AddRoute(route, ok) => Added(t, j, route, t', j', ok)
    case Edit => ValidTable(t') && j' == j
  }

  /** An add keeps the journal well formed in any table. */
  lemma AddKeepsJournal(t: Table, j: Journal, route: Snapshot, t': Table, j': Journal, ok: bool)
    requires ValidTable(t) && ValidJournal(j) && Added(t, j, route, t', j', ok)
    ensures ValidTable(t') && ValidJournal(j')
  {
    hide Key, Message;
    if j' != j {
      var k := Key(route).value;
      if k !in t {
        var reply :| Requested(t, route, RTM_ADD, t', reply);
        RequestFrame(t, route, RTM_ADD, t', reply);
        ExtendValidJournal(j, Change(k, route, None, true));
      } else {
        ReplaceKeepsJournal(t, j, k, route, t', j', ok);
      }
    }
  }

  lemma ExtendValidJournal(j: Journal, c: Change)
    requires ValidJournal(j) && !Journaled(j, c.key) && ValidChange(c)
    ensures ValidJournal(j + [c])
  {
    hide ValidChange;
  }

  lemma ReplaceKeepsJournal(t: Table, j: Journal, k: RouteKey, route: Snapshot, t': Table, j': Journal, ok: bool)
    requires ValidTable(t) && ValidJournal(j) && Key(route) == Ok(k) && !Journaled(j, k)
    requires k in t && Message(t[k], RTM_ADD).Ok? && Replaced(t, j, k, route, t', j', ok)
    ensures ValidTable(t') && ValidJournal(j')
  {
    hide Key, Message;
    var t1, reply :|
      && Requested(t, t[k], RTM_DELETE, t1, reply)
      && (if reply == Done
          then j' == j + [Change(k, route, Some(t[k]), true)] && AddRequested(t1, route, t', ok)
          else j' == j + [Change(k, route, Some(t[k]), false)] && t' == t1 && !ok);
    RequestFrame(t, t[k], RTM_DELETE, t1, reply);
    ExtendValidJournal(j, Change(k, route, Some(t[k]), reply == Done));
    if reply == Done {
      var second :| Requested(t1, route, RTM_ADD, t', second);
      RequestFrame(t1, route, RTM_ADD, t', second);
    }
  }

  lemma {:induction false} EditedRunKeepsJournal(t: Table, events: seq<Event>, t': Table, j': Journal)
    requires ValidTable(t) && EditedRun(t, events, t', j')
    ensures ValidTable(t') && ValidJournal(j')
    decreases |events|
  {
    hide Added, ValidTable, ValidChange;
    if events != [] {
      var n := |events| - 1;
      var t1, j1 :| EditedRun(t, events[..n], t1, j1) && Happened(t1, j1, events[n], t', j');
      EditedRunKeepsJournal(t, events[..n], t1, j1);
      if events[n].AddRoute? {
        AddKeepsJournal(t1, j1, events[n].route, t', j', events[n].ok);
      }
    }
  }

  /** However outsiders edit the table between adds and before the restore, every journaled key is settled on its own. */
  lemma RestoreAfterEdits(t: Table, events: seq<Event>, now: Table, j: Journal, t': Table, oks: seq<bool>, calm: seq<bool>)
    requires ValidTable(t) && EditedRun(t, events, now, j) && Restored(j, now, t', oks, calm)
    ensures forall i :: 0 <= i < |j| ==> Settled(j[i], now, t', oks[i], calm[i])
    ensures forall k :: !Journaled(j, k) ==> Lookup(t', k) == Lookup(now, k)
  {
    hide EditedRun, Restored, Settled, Journaled, ValidTable;
    EditedRunKeepsJournal(t, events, now, j);
    RestoreSettlesEveryKey(j, now, t', oks, calm);
  }

  // ----------------------------------------------------------------- restore

  /** Puts the displaced entry back, if there was one. */
  ghost predicate PutBack(c: Change, t: Table, t': Table, ok: bool)
  {
    if c.previous.None? then t' == t && ok else AddRequested(t, c.previous.value, t', ok)
  }

  /** `RouteChange::restore` */
  ghost predicate RestoredChange(c: Change, t: Table, t': Table, ok: bool)
  {
    // The lookup failed.
    || (t' == t && !ok)
    || (if c.key !in t then PutBack(c, t, t', ok)
        else if !c.attempted then t' == t && ok
        else if SamePath(t[c.key], c.route) != Ok(true) then t' == t && !ok
        else RemovedAndPutBack(c, t, t', ok))
  }

  ghost predicate RemovedAndPutBack(c: Change, t: Table, t': Table, ok: bool)
    requires c.key in t
  {
    exists t1, reply ::
      && Requested(t, t[c.key], RTM_DELETE, t1, reply)
      && (if reply == Failed then t' == t1 && !ok else PutBack(c, t1, t', ok))
  }

  /** The undo of one change when the kernel carries out every request that is possible. */
  function RestoreChange(c: Change, t: Table): (r: (Table, bool))
    requires ValidChange(c)
  {
    if c.key !in t then (Recreate(c, t), true)
    else if !c.attempted then (t, true)
    else if SamePath(t[c.key], c.route) != Ok(true) || Message(t[c.key], RTM_DELETE).Err? then (t, false)
    else (Recreate(c, t - {c.key}), true)
  }

  function Recreate(c: Change, t: Table): Table
    requires ValidChange(c)
  {
    if c.previous.Some? then t[c.key := Message(c.previous.value, RTM_ADD).value] else t
  }

  /** `SessionRoutes::restore_with`, down to index `i`: later changes first, whatever the others report.
      A change marked calm meets no fault. */
  ghost predicate RestoredFrom(j: Journal, i: nat, t: Table, t': Table, oks: seq<bool>, calm: seq<bool>)
    requires i <= |j| == |oks| == |calm| && ValidJournal(j)
    decreases |j| - i
  {
    if i == |j| then t' == t
    else exists t1 ::
           && RestoredFrom(j, i + 1, t, t1, oks, calm)
           && RestoredChange(j[i], t1, t', oks[i]) && (calm[i] ==> (t', oks[i]) == RestoreChange(j[i], t1))
  }

  ghost predicate Restored(j: Journal, t: Table, t': Table, oks: seq<bool>, calm: seq<bool>)
  {
    ValidJournal(j) && |oks| == |calm| == |j| && RestoredFrom(j, 0, t, t', oks, calm)
  }

  /** The session tried to add its route, and someone else owns the entry now. */
  predicate Foreign(c: Change, t: Table)
  {
    c.key in t && c.attempted && SamePath(t[c.key], c.route) != Ok(true)
  }

  /** Nothing but a fault keeps the change from being undone: the entry to be removed, if any, is the session's and can be
      sent in a DELETE. */
  predicate Undoable(c: Change, t: Table)
  {
    !Foreign(c, t) && (c.attempted && c.key in t ==> Message(t[c.key], RTM_DELETE).Ok?)
  }

  /** The entry a successful restore leaves at the key of `c`. */
  function Outcome(c: Change, entry: Option<Snapshot>): Option<Snapshot>
    requires ValidChange(c)
  {
    if entry.Some? && !c.attempted then entry
    else if c.previous.Some? then Some(Message(c.previous.value, RTM_ADD).value)
    else None
  }

  lemma PutBackOutcome(c: Change, t: Table, t': Table, ok: bool)
    requires ValidTable(t) && ValidChange(c) && c.key !in t && PutBack(c, t, t', ok)
    ensures ValidTable(t')
    ensures forall k :: k != c.key ==> Lookup(t', k) == Lookup(t, k)
    ensures ok ==> Lookup(t', c.key) == (if c.previous.Some? then Some(Message(c.previous.value, RTM_ADD).value) else None)
  {
    hide Key, Message;
    if c.previous.Some? {
      var reply :| Requested(t, c.previous.value, RTM_ADD, t', reply) && ok == reply.Done?;
      RequestFrame(t, c.previous.value, RTM_ADD, t', reply);
    }
  }

  /** One change: only its own key is touched; a foreign entry stays and is reported; an entry where nothing was added
      stays too; success gives the outcome. */
  lemma ChangeOutcome(c: Change, t: Table, t': Table, ok: bool)
    requires ValidTable(t) && ValidChange(c) && RestoredChange(c, t, t', ok)
    ensures ValidTable(t')
    ensures forall k :: k != c.key ==> Lookup(t', k) == Lookup(t, k)
    ensures Foreign(c, t) ==> !ok && Lookup(t', c.key) == Lookup(t, c.key)
    ensures !c.attempted && c.key in t ==> Lookup(t', c.key) == Lookup(t, c.key)
    ensures ok ==> Lookup(t', c.key) == Outcome(c, Lookup(t, c.key))
  {
    hide Key, Message, SamePath;
    if t' == t && !ok {
    } else if c.key !in t {
      PutBackOutcome(c, t, t', ok);
    } else if c.attempted && SamePath(t[c.key], c.route) == Ok(true) {
      var t1, reply :|
        && Requested(t, t[c.key], RTM_DELETE, t1, reply)
        && (if reply == Failed then t' == t1 && !ok else PutBack(c, t1, t', ok));
      RequestFrame(t, t[c.key], RTM_DELETE, t1, reply);
      if reply != Failed {
        DeleteRemoves(t, c.key, t1, reply);
        PutBackOutcome(c, t1, t', ok);
      }
    }
  }

  lemma DeleteRemoves(t: Table, k: RouteKey, t': Table, reply: Reply)
    requires ValidTable(t) && k in t && Requested(t, t[k], RTM_DELETE, t', reply) && reply != Failed
    ensures k !in t'
  {
    hide Key, Message;
  }

  /** What one change leaves behind, as seen in the final table. */
  predicate Settled(c: Change, t: Table, t': Table, ok: bool, calm: bool)
  {
    && (Foreign(c, t) ==> !ok && Lookup(t', c.key) == Lookup(t, c.key))
    && (!c.attempted && c.key in t ==> Lookup(t', c.key) == Lookup(t, c.key))
    && (ok ==> ValidChange(c) && Lookup(t', c.key) == Outcome(c, Lookup(t, c.key)))
    && (calm ==> (ok <==> Undoable(c, t)) && (!ok ==> Lookup(t', c.key) == Lookup(t, c.key)))
  }

  lemma {:induction false} SettledFrom(j: Journal, i: nat, t: Table, t': Table, oks: seq<bool>, calm: seq<bool>)
    requires i <= |j| == |oks| == |calm|
    requires ValidTable(t) && ValidJournal(j) && RestoredFrom(j, i, t, t', oks, calm)
    ensures ValidTable(t')
    ensures forall m :: i <= m < |j| ==> Settled(j[m], t, t', oks[m], calm[m])
    ensures forall k :: (forall m :: i <= m < |j| ==> j[m].key != k) ==> Lookup(t', k) == Lookup(t, k)
    decreases |j| - i
  {
    hide Key, Message, SamePath, ValidChange, Outcome, Settled, RestoreChange, RestoredChange;
    if i < |j| {
      var c := j[i];
      var t1 :| RestoredFrom(j, i + 1, t, t1, oks, calm)
                && RestoredChange(c, t1, t', oks[i]) && (calm[i] ==> (t', oks[i]) == RestoreChange(c, t1));
      SettledFrom(j, i + 1, t, t1, oks, calm);
      ChangeOutcome(c, t1, t', oks[i]);
      assert Lookup(t1, c.key) == Lookup(t, c.key);
      ChangeIsSettled(c, t1, t', oks[i], calm[i]);
      SettledElsewhere(c, t, t1, t', t', oks[i], calm[i]);
      forall m | i < m < |j|
        ensures Settled(j[m], t, t', oks[m], calm[m])
      {
        assert j[m].key != c.key;
        SettledElsewhere(j[m], t, t, t1, t', oks[m], calm[m]);
      }
    }
  }

  lemma ChangeIsSettled(c: Change, t: Table, t': Table, ok: bool, calm: bool)
    requires ValidTable(t) && ValidChange(c) && RestoredChange(c, t, t', ok)
    requires calm ==> (t', ok) == RestoreChange(c, t)
    ensures Settled(c, t, t', ok, calm)
  {
    hide Key, Message, SamePath, RestoredChange, Outcome, ValidChange;
    ChangeOutcome(c, t, t', ok);
  }

  /** With any table at the start, in particular one edited by others since the session was set up, and any faults:
      foreign entries are never deleted or overwritten and are reported; an entry found where the session added nothing is
      kept and not an error; every change that meets no fault is undone exactly when its entry is not foreign and can be
      sent, whatever happens at the other keys; keys outside the journal are untouched. */
  lemma RestoreSettlesEveryKey(j: Journal, t: Table, t': Table, oks: seq<bool>, calm: seq<bool>)
    requires ValidTable(t) && Restored(j, t, t', oks, calm)
    ensures ValidTable(t')
    ensures forall i :: 0 <= i < |j| ==> Settled(j[i], t, t', oks[i], calm[i])
    ensures forall k :: !Journaled(j, k) ==> Lookup(t', k) == Lookup(t, k)
  {
    hide ValidTable, ValidChange, Settled;
    SettledFrom(j, 0, t, t', oks, calm);
  }

  /** Settling depends only on the entries at the change's own key. */
  lemma SettledElsewhere(c: Change, t: Table, s: Table, s': Table, t': Table, ok: bool, calm: bool)
    requires Lookup(s, c.key) == Lookup(t, c.key) && Lookup(s', c.key) == Lookup(t', c.key)
    ensures Settled(c, s, s', ok, calm) == Settled(c, t, t', ok, calm)
  {
    hide ValidChange, Outcome, SamePath, Message;
  }

  predicate AllTrue(oks: seq<bool>)
  {
    forall i :: 0 <= i < |oks| ==> oks[i]
  }

  /** What a restored table holds at one key: nothing where nothing was; an entry that was never removed is
      byte-identical; a removed one is recreated by its own ADD request. */
  ghost predicate AsBefore(before: Table, now: Table, j: Journal, t': Table, k: RouteKey)
  {
    if k !in before then k !in t'
    else if Journaled(j, k) && !(k in now && now[k] == before[k] && NotAttempted(j, k))
    then Message(before[k], RTM_ADD).Ok? && Lookup(t', k) == Some(Message(before[k], RTM_ADD).value)
    else Lookup(t', k) == Some(before[k])
  }

  predicate NotAttempted(j: Journal, k: RouteKey)
  {
    exists i :: 0 <= i < |j| && j[i].key == k && !j[i].attempted
  }

  lemma RestoreUndoes(before: Table, now: Table, j: Journal, t': Table, oks: seq<bool>, calm: seq<bool>)
    requires ValidTable(now) && Explains(before, now, j) && Restored(j, now, t', oks, calm) && AllTrue(oks)
    ensures forall k :: AsBefore(before, now, j, t', k)
  {
    hide Key, Message, SamePath;
    RestoreSettlesEveryKey(j, now, t', oks, calm);
    forall k
      ensures AsBefore(before, now, j, t', k)
    {
      if Journaled(j, k) {
        var i :| 0 <= i < |j| && j[i].key == k;
        assert Settled(j[i], now, t', oks[i], calm[i]);
        assert Underway(j[i], Lookup(now, k));
        assert NotAttempted(j, k) <==> !j[i].attempted;
      }
    }
  }

  /** For every table, every sequence of adds and every failure among them, a restore that reports success
      gives back the table from before the session, key by key. */
  lemma RestoreUndoesEveryRun(before: Table, routes: seq<Snapshot>, reports: seq<bool>, now: Table, j: Journal,
                              t': Table, oks: seq<bool>, calm: seq<bool>)
    requires ValidTable(before) && AddRun(before, [], routes, now, j, reports)
    requires Restored(j, now, t', oks, calm) && AllTrue(oks)
    ensures forall k :: AsBefore(before, now, j, t', k)
  {
    hide AsBefore, AddRun, Restored;
    EmptyJournalExplains(before);
    RunKeepsExplaining(before, before, [], routes, now, j, reports);
    RestoreUndoes(before, now, j, t', oks, calm);
  }

  // ------------------------------------------------------- fault-free restore

  /** The fault-free restore of changes `i` and up. */
  function RestoreAll(j: Journal, i: nat, t: Table): (r: (Table, seq<bool>))
    requires i <= |j| && ValidJournal(j)
    ensures |r.1| == |j| - i
    decreases |j| - i
  {
    if i == |j| then (t, [])
    else
      var later := RestoreAll(j, i + 1, t);
      var mine := RestoreChange(j[i], later.0);
      (mine.0, [mine.1] + later.1)
  }

  lemma RestoreChangeIsPossible(c: Change, t: Table)
    requires ValidTable(t) && ValidChange(c)
    ensures RestoredChange(c, t, RestoreChange(c, t).0, RestoreChange(c, t).1)
  {
    hide Key, Message, SamePath;
    if c.key !in t {
      RecreateIsPossible(c, t);
    } else if c.attempted && SamePath(t[c.key], c.route) == Ok(true) && Message(t[c.key], RTM_DELETE).Ok? {
      assert Requested(t, t[c.key], RTM_DELETE, t - {c.key}, Done);
      RecreateIsPossible(c, t - {c.key});
    }
  }

  lemma RecreateIsPossible(c: Change, t: Table)
    requires ValidChange(c) && c.key !in t
    ensures PutBack(c, t, Recreate(c, t), true)
  {
    hide Key, Message;
    if c.previous.Some? {
      assert Requested(t, c.previous.value, RTM_ADD, Recreate(c, t), Done);
    }
  }

  /** A cooperating kernel is one of the kernels covered above. */
  lemma {:induction false} RestoreAllIsPossible(j: Journal, i: nat, t: Table, oks: seq<bool>, calm: seq<bool>)
    requires ValidTable(t) && ValidJournal(j) && i <= |j| == |oks| == |calm| && oks[i..] == RestoreAll(j, i, t).1
    ensures RestoredFrom(j, i, t, RestoreAll(j, i, t).0, oks, calm)
    ensures ValidTable(RestoreAll(j, i, t).0)
    decreases |j| - i
  {
    hide Key, Message, SamePath, RestoreChange, RestoredChange;
    if i < |j| {
      assert oks[i + 1..] == oks[i..][1..];
      assert oks[i] == oks[i..][0];
      RestoreAllIsPossible(j, i + 1, t, oks, calm);
      var later := RestoreAll(j, i + 1, t).0;
      RestoreChangeIsPossible(j[i], later);
      ChangeOutcome(j[i], later, RestoreChange(j[i], later).0, RestoreChange(j[i], later).1);
    }
  }

  /** With any outside edits, a fault-free restore succeeds at exactly the keys where the entry to be removed is the
      session's own and can be sent. There it leaves the outcome; the others and all other keys stay as they are. */
  lemma EditedRestore(j: Journal, t: Table)
    requires ValidTable(t) && ValidJournal(j)
    ensures ValidTable(RestoreAll(j, 0, t).0)
    ensures forall m :: 0 <= m < |j| ==>
              var t', ok := RestoreAll(j, 0, t).0, RestoreAll(j, 0, t).1[m];
              && (ok <==> Undoable(j[m], t))
              && Lookup(t', j[m].key) == (if ok then Outcome(j[m], Lookup(t, j[m].key)) else Lookup(t, j[m].key))
    ensures forall k :: !Journaled(j, k) ==> Lookup(RestoreAll(j, 0, t).0, k) == Lookup(t, k)
  {
    hide Key, Message, SamePath, RestoreAll, RestoredFrom, Undoable, Outcome, ValidChange;
    var oks, calm := RestoreAll(j, 0, t).1, seq(|j|, _ => true);
    assert oks[0..] == oks;
    RestoreAllIsPossible(j, 0, t, oks, calm);
    RestoreSettlesEveryKey(j, t, RestoreAll(j, 0, t).0, oks, calm);
    assert forall m :: 0 <= m < |j| ==> Settled(j[m], t, RestoreAll(j, 0, t).0, oks[m], calm[m]);
  }

  /** Whether a route can be sent does not depend on the operation. */
  lemma SendableEitherWay(route: Snapshot, a: bv8, b: bv8)
    ensures Message(route, a).Ok? == Message(route, b).Ok?
  {}

  lemma DeleteIsEncodable(route: Snapshot)
    requires Message(route, RTM_ADD).Ok?
    ensures Message(Message(route, RTM_ADD).value, RTM_DELETE).Ok?
  {
    RequestOfRequest(route, RTM_ADD, RTM_DELETE);
  }

  /** The session's entry, if it is there, can be recognised again. */
  predicate Removable(c: Change, t: Table)
  {
    c.attempted && c.key in t ==> ComparablePath(c.route)
  }

  /** Without outside edits a change can be undone exactly when its route has a comparable path or is not in the table. */
  lemma UnderwayIsRestorable(c: Change, t: Table)
    requires ValidChange(c) && Underway(c, Lookup(t, c.key))
    ensures Undoable(c, t) <==> Removable(c, t)
  {
    hide Key, Message, SamePath, ComparablePath;
    if c.attempted && c.key in t {
      DeleteIsEncodable(c.route);
      RequestKeepsPath(c.route, RTM_ADD);
    }
  }

  /** A fault-free restore succeeds at every key that no outsider edited, exactly when the session's route there can be
      recognised; edits at other keys do not matter. With the result above, a table restored everywhere is as before. */
  lemma CooperativeRestore(j: Journal, t: Table)
    requires ValidTable(t) && ValidJournal(j)
    ensures forall m :: 0 <= m < |j| && Underway(j[m], Lookup(t, j[m].key)) ==> (RestoreAll(j, 0, t).1[m] <==> Removable(j[m], t))
    ensures ValidTable(RestoreAll(j, 0, t).0)
    ensures forall k :: !Journaled(j, k) ==> Lookup(RestoreAll(j, 0, t).0, k) == Lookup(t, k)
  {
    hide Key, Message, SamePath, ComparablePath, RestoreAll, Underway, Undoable, Removable, ValidChange, Outcome;
    EditedRestore(j, t);
    forall m | 0 <= m < |j| && Underway(j[m], Lookup(t, j[m].key))
      ensures RestoreAll(j, 0, t).1[m] <==> Removable(j[m], t)
    {
      UnderwayIsRestorable(j[m], t);
    }
  }
}
