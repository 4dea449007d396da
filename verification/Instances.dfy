/**
  Instance lifecycle of services/instance_manager.py over its two tables and two in-memory dictionaries:
  create, update, delete, start, stop, timed pauses and their reconciler, and the reviver of dead
  instances.
  */
module Instances {
  import opened Prelude
  import opened Subscriptions

  /** One row of the instance table, reduced to the columns the lifecycle reads. */
  datatype Row = Row(
    selections: seq<Selection>,
    buttonEvent: Option<string>,
    isPaused: bool,
    pauseExpiresAt: Option<real>)
  {
    function Button(): string { buttonEvent.GetOr(DEFAULT_BUTTON_EVENT) }

    ghost predicate Listens(d: int, e: string) { Selects(selections, Button(), d, e) }

    predicate Expired(now: real) { isPaused && pauseExpiresAt.Some? && pauseExpiresAt.value <= now }
  }

  /** rows and subs are the database; the rest is the process's memory. jobs: the pending auto-resume jobs of
      running apps, each with the moment from which it fires. */
  datatype Store = Store(
    rows: map<int, Row>,
    subs: seq<Sub>,
    nextId: int,
    running: set<int>,
    stoppedAt: map<int, real>,
    jobs: map<int, real>)

  const EMPTY := Store(map[], [], 1, {}, map[], map[])

  /** How the outside world answers during one operation: the row write, the start of the app object, and
      the two subscription writes. */
  datatype Io = Io(write: bool, starts: bool, clearSubs: bool, insertSubs: bool) {
    predicate SubsSucceed() { clearSubs && insertSubs }
  }

  /** The columns an update sends. */
  datatype Change = Change(relabels: bool, selections: Option<seq<Selection>>, settings: Option<Option<string>>)

  // ---------------------------------------------------------------------------------------------
  // Operations
  // ---------------------------------------------------------------------------------------------

  function Insert(s: Store, i: int, io: Io): Store {
    if i in s.rows && io.insertSubs
    then s.(subs := AddNew(s.subs, Wanted(i, s.rows[i].selections, s.rows[i].Button())))
    else s
  }

  /** Delete the instance's subscriptions and insert those of its current row. */
  function Rebuild(s: Store, i: int, io: Io): Store {
    Insert(if io.clearSubs then s.(subs := Without(s.subs, i)) else s, i, io)
  }

  function Start(s: Store, i: int, io: Io): Store {
    if i !in s.rows || !io.starts then s
    else Rebuild(s, i, io).(running := s.running + {i}, stoppedAt := s.stoppedAt - {i})
  }

  function Stop(s: Store, i: int, now: real): Store {
    if i !in s.running then s
    else s.(running := s.running - {i}, stoppedAt := s.stoppedAt[i := now], jobs := s.jobs - {i})
  }

  /** The start endpoint stops an instance that is somehow still running first. */
  function Restart(s: Store, i: int, io: Io, now: real): Store {
    Start(Stop(s, i, now), i, io)
  }

  function Create(s: Store, selections: seq<Selection>, buttonEvent: Option<string>, io: Io): Store {
    if !io.write then s
    else
      var i := s.nextId;
      var inserted := s.(rows := s.rows[i := Row(selections, buttonEvent, false, None)], nextId := i + 1);
      Start(Insert(inserted, i, io), i, io)
  }

  function Changed(row: Row, c: Change): Row {
    row.(selections := c.selections.GetOr(row.selections),
         buttonEvent := if c.settings.Some? && c.settings.value.Some? then c.settings.value else row.buttonEvent)
  }

  function Update(s: Store, i: int, c: Change, io: Io, now: real): Store {
    if !c.relabels && c.selections.None? && (c.settings.None? || i !in s.rows) then s
    else
      var stopped := Stop(s, i, now);
      if !io.write then Start(stopped, i, io)
      else
        var patched := if i in s.rows then stopped.(rows := s.rows[i := Changed(s.rows[i], c)]) else stopped;
        Start(Rebuild(patched, i, io), i, io)
  }

  function Delete(s: Store, i: int, io: Io, now: real): Store {
    var stopped := Stop(s, i, now);
    if !io.write then stopped
    else stopped.(rows := s.rows - {i}, subs := Without(s.subs, i))
  }

  /** appAt: clock sample of the running app's own write of the pause, if it got through. jobAt: its sample
      when it schedules its auto-resume, which only a timed pause does. */
  function Pause(s: Store, i: int, minutes: int, now: real, appAt: Option<real>, jobAt: real, io: Io): Store {
    if !io.write || i !in s.rows then s
    else
      var row := s.rows[i].(isPaused := true);
      var first := if minutes != 0 then row.(pauseExpiresAt := Some(now + 60.0 * minutes as real)) else row;
      var second :=
        if i in s.running && appAt.Some?
        then first.(pauseExpiresAt := if minutes > 0 then Some(appAt.value + 60.0 * minutes as real) else None)
        else first;
      s.(rows := s.rows[i := second],
         jobs := if i in s.running && minutes > 0 then s.jobs[i := jobAt + 60.0 * minutes as real] else s.jobs)
  }

  function Resumed(row: Row): Row {
    row.(isPaused := false, pauseExpiresAt := None)
  }

  /** A resumed app cancels its job. */
  function Resume(s: Store, i: int, io: Io): Store {
    if !io.write || i !in s.rows then s
    else s.(rows := s.rows[i := Resumed(s.rows[i])], jobs := if i in s.running then s.jobs - {i} else s.jobs)
  }

  /** A job that is due fires once and resumes its instance. */
  function Fire(s: Store, i: int, now: real, io: Io): Store {
    if i in s.jobs && s.jobs[i] <= now then Resume(s.(jobs := s.jobs - {i}), i, io) else s
  }

  /** The reconciler finds the timed pause elapsed, and its write gets through. */
  predicate Ends(s: Store, i: int, now: real, writes: int -> bool) {
    i in s.rows && s.rows[i].Expired(now) && writes(i)
  }

  /** The reconciler: every row whose timed pause has elapsed is resumed, where the write succeeds. */
  function Tick(s: Store, now: real, writes: int -> bool): Store {
    s.(rows := map i | i in s.rows :: if Ends(s, i, now, writes) then Resumed(s.rows[i]) else s.rows[i],
       jobs := map i | i in s.jobs && !(Ends(s, i, now, writes) && i in s.running) :: s.jobs[i])
  }

  /** The reviver leaves running, paused and freshly stopped instances alone. */
  predicate Revivable(s: Store, i: int, now: real, graceSecs: real) {
    && i in s.rows && i !in s.running && !s.rows[i].isPaused
    && !(i in s.stoppedAt && now - s.stoppedAt[i] < graceSecs)
  }

  /** ids: the rows in listed order; starts(i): whether the app object of i comes up. */
  function Revive(s: Store, ids: seq<int>, now: real, graceSecs: real, starts: int -> bool, io: Io): Store {
    if ids == [] then s
    else
      var t := Revive(s, Init(ids), now, graceSecs, starts, io);
      if Revivable(t, Last(ids), now, graceSecs) then Start(t, Last(ids), io.(starts := starts(Last(ids)))) else t
  }

  datatype Op =
    | OpCreate(selections: seq<Selection>, buttonEvent: Option<string>, io: Io)
    | OpUpdate(id: int, change: Change, io: Io, now: real)
    | OpDelete(id: int, io: Io, now: real)
    | OpStart(id: int, io: Io, now: real)
    | OpStop(id: int, now: real)
    | OpPause(id: int, minutes: int, now: real, appAt: Option<real>, jobAt: real, io: Io)
    | OpResume(id: int, io: Io)
    | OpFire(id: int, now: real, io: Io)
    | OpTick(now: real, writes: int -> bool)
    | OpRevive(ids: seq<int>, now: real, graceSecs: real, starts: int -> bool, io: Io)
    | OpRestart

  function Apply(s: Store, op: Op): Store {
    match op
    case OpCreate(sel, button, io) => Create(s, sel, button, io)
    case OpUpdate(i, c, io, now) => Update(s, i, c, io, now)
    case OpDelete(i, io, now) => Delete(s, i, io, now)
    case OpStart(i, io, now) => Restart(s, i, io, now)
    case OpStop(i, now) => Stop(s, i, now)
    case OpPause(i, m, now, appAt, jobAt, io) => Pause(s, i, m, now, appAt, jobAt, io)
    case OpResume(i, io) => Resume(s, i, io)
    case OpFire(i, now, io) => Fire(s, i, now, io)
    case OpTick(now, writes) => Tick(s, now, writes)
    case OpRevive(ids, now, grace, starts, io) => Revive(s, ids, now, grace, starts, io)
    case OpRestart => s.(running := {}, stoppedAt := map[], jobs := map[])
  }

  function Run(s: Store, ops: seq<Op>): Store {
    if ops == [] then s else Apply(Run(s, Init(ops)), Last(ops))
  }

  // ---------------------------------------------------------------------------------------------
  // The subscription table is an index of the rows
  // ---------------------------------------------------------------------------------------------

  /** Subscriptions of one instance are exactly the pairs its current row selects; none without a row. */
  ghost predicate AgreesFor(s: Store, i: int) {
    forall d, e :: Sub(d, i, e) in s.subs <==> i in s.rows && s.rows[i].Listens(d, e)
  }

  ghost predicate Agrees(s: Store) {
    NoDup(s.subs) && forall i :: AgreesFor(s, i)
  }

  /** Every subscription write of the operation succeeds. */
  predicate SubsSucceed(op: Op) {
    match op
    case OpCreate(_, _, io) => io.SubsSucceed()
    case OpUpdate(_, _, io, _) => io.SubsSucceed()
    case OpStart(_, io, _) => io.SubsSucceed()
    case OpRevive(_, _, _, _, io) => io.SubsSucceed()
    case _ => true
  }

  /** Rebuilding one instance makes its subscriptions right whatever they were, and touches no others. */
  lemma RebuildMakesRight(s: Store, i: int, io: Io)
    requires NoDup(s.subs) && io.SubsSucceed()
    ensures NoDup(Rebuild(s, i, io).subs)
    ensures AgreesFor(Rebuild(s, i, io), i)
    ensures forall sub: Sub :: sub.instance != i ==> (sub in Rebuild(s, i, io).subs <==> sub in s.subs)
    ensures Rebuild(s, i, io).rows == s.rows
  {
    WithoutElements(s.subs, i);
    if i in s.rows {
      var row := s.rows[i];
      WantedIsSelected(i, row.selections, row.Button());
      AddNewElements(Without(s.subs, i), Wanted(i, row.selections, row.Button()));
    }
  }

  /** With writes that fail: what was there stays if it could not be deleted, and what the row selects is there if it
      could be inserted. */
  lemma RebuildLeaves(s: Store, i: int, io: Io, d: int, e: string)
    ensures Sub(d, i, e) in Rebuild(s, i, io).subs <==>
              (!io.clearSubs && Sub(d, i, e) in s.subs) || (io.insertSubs && i in s.rows && s.rows[i].Listens(d, e))
  {
    WithoutElements(s.subs, i);
    if i in s.rows {
      var row := s.rows[i];
      WantedIsSelected(i, row.selections, row.Button());
      AddNewElements(if io.clearSubs then Without(s.subs, i) else s.subs, Wanted(i, row.selections, row.Button()));
    }
  }

  /** A second rebuild leaves the same set of subscriptions. */
  lemma RebuildIsIdempotent(s: Store, i: int, io: Io)
    requires NoDup(s.subs) && io.SubsSucceed()
    ensures forall sub: Sub :: sub in Rebuild(Rebuild(s, i, io), i, io).subs <==> sub in Rebuild(s, i, io).subs
    ensures NoDup(Rebuild(Rebuild(s, i, io), i, io).subs)
  {
    var once := Rebuild(s, i, io);
    RebuildMakesRight(s, i, io);
    RebuildMakesRight(once, i, io);
    forall sub: Sub ensures sub in Rebuild(once, i, io).subs <==> sub in once.subs {
      if sub.instance == i {
        assert sub == Sub(sub.device, i, sub.event);
      }
    }
  }

  /** t differs from s in the row of i at most; subscriptions of other instances are the same. */
  lemma AgreesAfterRebuild(s: Store, t: Store, i: int, io: Io)
    requires Agrees(s) && io.SubsSucceed()
    requires t.subs == s.subs && t.rows - {i} == s.rows - {i}
    ensures Agrees(Rebuild(t, i, io))
  {
    var r := Rebuild(t, i, io);
    RebuildMakesRight(t, i, io);
    forall j ensures AgreesFor(r, j) {
      if j != i {
        assert AgreesFor(s, j);
        SameRowElsewhere(s.rows, t.rows, i, j);
      }
    }
  }

  lemma SameRowElsewhere(a: map<int, Row>, b: map<int, Row>, i: int, j: int)
    requires a - {i} == b - {i} && i != j
    ensures j in a <==> j in b
    ensures j in a ==> a[j] == b[j]
  {
    assert j in a <==> j in a - {i};
    assert j in b <==> j in b - {i};
    if j in a {
      assert a[j] == (a - {i})[j] == (b - {i})[j] == b[j];
    }
  }

  /** Agreement depends on the two tables only. */
  lemma AgreesOnTables(s: Store, t: Store)
    requires Agrees(s) && t.subs == s.subs
    requires t.rows.Keys == s.rows.Keys
    requires forall i :: i in s.rows ==> t.rows[i].selections == s.rows[i].selections && t.rows[i].buttonEvent == s.rows[i].buttonEvent
    ensures Agrees(t)
  {
    forall i ensures AgreesFor(t, i) {
      assert AgreesFor(s, i);
    }
  }

  lemma StartAgrees(s: Store, t: Store, i: int, io: Io)
    requires Agrees(s) && io.SubsSucceed()
    requires t.subs == s.subs && t.rows == s.rows
    ensures Agrees(Start(t, i, io))
  {
    AgreesOnTables(s, t);
    if i in t.rows && io.starts {
      AgreesAfterRebuild(s, t, i, io);
      AgreesOnTables(Rebuild(t, i, io), Start(t, i, io));
    }
  }

  /** Ids are handed out in order, so the next one has never been used. */
  ghost predicate FreshIds(s: Store) {
    forall i :: i in s.rows ==> i < s.nextId
  }

  /** Inserting the subscriptions of a new row is rebuilding them: none can be there. */
  lemma InsertAgrees(s: Store, t: Store, i: int, io: Io)
    requires Agrees(s) && i !in s.rows && io.SubsSucceed()
    requires t.subs == s.subs && t.rows - {i} == s.rows - {i}
    ensures Agrees(Insert(t, i, io))
  {
    NoSubsWithoutRow(s, i);
    AgreesAfterRebuild(s, t, i, io);
    assert Rebuild(t, i, io) == Insert(t.(subs := Without(t.subs, i)), i, io) == Insert(t, i, io);
  }

  lemma NewRowElsewhere(rows: map<int, Row>, i: int, row: Row)
    ensures rows[i := row] - {i} == rows - {i}
  {
  }

  lemma CreateAgrees(s: Store, selections: seq<Selection>, buttonEvent: Option<string>, io: Io)
    requires Agrees(s) && FreshIds(s) && io.SubsSucceed() && io.write
    ensures Agrees(Create(s, selections, buttonEvent, io))
  {
    var i := s.nextId;
    var inserted := s.(rows := s.rows[i := Row(selections, buttonEvent, false, None)], nextId := i + 1);
    NewRowElsewhere(s.rows, i, Row(selections, buttonEvent, false, None));
    InsertAgrees(s, inserted, i, io);
    StartAgrees(Insert(inserted, i, io), Insert(inserted, i, io), i, io);
  }

  lemma NoSubsWithoutRow(s: Store, i: int)
    requires Agrees(s) && i !in s.rows
    ensures Without(s.subs, i) == s.subs
  {
    assert AgreesFor(s, i);
    forall sub | sub in s.subs ensures sub.instance != i {
      assert sub == Sub(sub.device, sub.instance, sub.event);
    }
    NothingToClear(s.subs, i);
  }

  lemma {:induction false} NothingToClear(table: seq<Sub>, i: int)
    requires forall sub :: sub in table ==> sub.instance != i
    ensures Without(table, i) == table
  {
    if table != [] {
      var init, last := Init(table), Last(table);
      assert table == init + [last] && last in table;
      assert forall sub :: sub in init ==> sub in table;
      NothingToClear(init, i);
    }
  }

  lemma UpdateAgrees(s: Store, i: int, c: Change, io: Io, now: real)
    requires Agrees(s) && io.SubsSucceed()
    ensures Agrees(Update(s, i, c, io, now))
  {
    var stopped := Stop(s, i, now);
    if !io.write {
      StartAgrees(s, stopped, i, io);
    } else {
      var patched := if i in s.rows then stopped.(rows := s.rows[i := Changed(s.rows[i], c)]) else stopped;
      assert patched.rows - {i} == s.rows - {i};
      AgreesAfterRebuild(s, patched, i, io);
      StartAgrees(Rebuild(patched, i, io), Rebuild(patched, i, io), i, io);
    }
  }

  lemma DeleteAgrees(s: Store, i: int, io: Io, now: real)
    requires Agrees(s)
    ensures Agrees(Delete(s, i, io, now))
  {
    WithoutElements(s.subs, i);
    forall j ensures AgreesFor(Delete(s, i, io, now), j) {
      assert AgreesFor(s, j);
    }
  }

  lemma {:induction false} ReviveAgrees(s: Store, ids: seq<int>, now: real, graceSecs: real, starts: int -> bool, io: Io)
    requires Agrees(s) && io.SubsSucceed()
    ensures Agrees(Revive(s, ids, now, graceSecs, starts, io))
  {
    if ids != [] {
      ReviveAgrees(s, Init(ids), now, graceSecs, starts, io);
      var t := Revive(s, Init(ids), now, graceSecs, starts, io);
      StartAgrees(t, t, Last(ids), io.(starts := starts(Last(ids))));
    }
  }

  lemma ApplyAgrees(s: Store, op: Op)
    requires Agrees(s) && FreshIds(s) && SubsSucceed(op)
    ensures Agrees(Apply(s, op))
  {
    match op
    case OpCreate(sel, button, io) => if io.write { CreateAgrees(s, sel, button, io); }
    case OpUpdate(i, c, io, now) => UpdateAgrees(s, i, c, io, now);
    case OpDelete(i, io, now) => DeleteAgrees(s, i, io, now);
    case OpStart(i, io, now) => StartAgrees(s, Stop(s, i, now), i, io);
    case OpStop(i, now) => AgreesOnTables(s, Stop(s, i, now));
    case OpPause(i, m, now, appAt, jobAt, io) => AgreesOnTables(s, Pause(s, i, m, now, appAt, jobAt, io));
    case OpResume(i, io) => AgreesOnTables(s, Resume(s, i, io));
    case OpFire(i, now, io) => AgreesOnTables(s, Fire(s, i, now, io));
    case OpTick(now, writes) => AgreesOnTables(s, Tick(s, now, writes));
    case OpRevive(ids, now, grace, starts, io) => ReviveAgrees(s, ids, now, grace, starts, io);
    case OpRestart => AgreesOnTables(s, Apply(s, op));
  }

  /** What every operation keeps, subscription writes succeeding or not. */
  ghost predicate Invariant(s: Store) {
    && FreshIds(s)
    && NoDup(s.subs)
    && s.running !! s.stoppedAt.Keys
    && (forall i :: i in s.running ==> i in s.rows)
    && (forall i :: i in s.jobs ==> i in s.running)
    && (forall i :: i in s.rows && !s.rows[i].isPaused ==> s.rows[i].pauseExpiresAt.None? && i !in s.jobs)
  }

  lemma InsertKeepsInvariant(s: Store, i: int, io: Io)
    requires Invariant(s)
    ensures Invariant(Insert(s, i, io))
  {
    if i in s.rows {
      AddNewElements(s.subs, Wanted(i, s.rows[i].selections, s.rows[i].Button()));
    }
  }

  lemma StartKeepsInvariant(s: Store, i: int, io: Io)
    requires Invariant(s)
    ensures Invariant(Rebuild(s, i, io)) && Invariant(Start(s, i, io))
  {
    WithoutElements(s.subs, i);
    InsertKeepsInvariant(if io.clearSubs then s.(subs := Without(s.subs, i)) else s, i, io);
  }

  lemma {:induction false} ReviveKeepsInvariant(s: Store, ids: seq<int>, now: real, graceSecs: real, starts: int -> bool, io: Io)
    requires Invariant(s)
    ensures Invariant(Revive(s, ids, now, graceSecs, starts, io))
  {
    if ids != [] {
      ReviveKeepsInvariant(s, Init(ids), now, graceSecs, starts, io);
      StartKeepsInvariant(Revive(s, Init(ids), now, graceSecs, starts, io), Last(ids), io.(starts := starts(Last(ids))));
    }
  }

  lemma StopKeepsInvariant(s: Store, i: int, now: real)
    requires Invariant(s)
    ensures Invariant(Stop(s, i, now))
  {
  }

  lemma PatchKeepsInvariant(s: Store, i: int, c: Change)
    requires Invariant(s) && i in s.rows
    ensures Invariant(s.(rows := s.rows[i := Changed(s.rows[i], c)]))
  {
  }

  lemma UpdateKeepsInvariant(s: Store, i: int, c: Change, io: Io, now: real)
    requires Invariant(s)
    ensures Invariant(Update(s, i, c, io, now))
  {
    var stopped := Stop(s, i, now);
    StopKeepsInvariant(s, i, now);
    StartKeepsInvariant(stopped, i, io);
    if i in s.rows {
      PatchKeepsInvariant(stopped, i, c);
    }
    var patched := if i in s.rows then stopped.(rows := s.rows[i := Changed(s.rows[i], c)]) else stopped;
    StartKeepsInvariant(patched, i, io);
    StartKeepsInvariant(Rebuild(patched, i, io), i, io);
  }

  lemma CreateKeepsInvariant(s: Store, selections: seq<Selection>, buttonEvent: Option<string>, io: Io)
    requires Invariant(s)
    ensures Invariant(Create(s, selections, buttonEvent, io))
  {
    var i := s.nextId;
    var inserted := s.(rows := s.rows[i := Row(selections, buttonEvent, false, None)], nextId := i + 1);
    InsertKeepsInvariant(inserted, i, io);
    StartKeepsInvariant(Insert(inserted, i, io), i, io);
  }

  lemma DeleteKeepsInvariant(s: Store, i: int, io: Io, now: real)
    requires Invariant(s)
    ensures Invariant(Delete(s, i, io, now))
  {
    StopKeepsInvariant(s, i, now);
    WithoutElements(s.subs, i);
  }

  lemma PausingKeepsInvariant(s: Store, i: int, minutes: int, now: real, appAt: Option<real>, jobAt: real, io: Io)
    requires Invariant(s)
    ensures Invariant(Pause(s, i, minutes, now, appAt, jobAt, io))
  {
  }

  lemma ResumingKeepsInvariant(s: Store, i: int, now: real, writes: int -> bool, io: Io)
    requires Invariant(s)
    ensures Invariant(Resume(s, i, io)) && Invariant(Fire(s, i, now, io)) && Invariant(Tick(s, now, writes))
  {
  }

  lemma ApplyKeepsInvariant(s: Store, op: Op)
    requires Invariant(s)
    ensures Invariant(Apply(s, op))
  {
    match op
    case OpCreate(sel, button, io) => CreateKeepsInvariant(s, sel, button, io);
    case OpUpdate(i, c, io, now) => UpdateKeepsInvariant(s, i, c, io, now);
    case OpDelete(i, io, now) => DeleteKeepsInvariant(s, i, io, now);
    case OpStart(i, io, now) =>
      StopKeepsInvariant(s, i, now);
      StartKeepsInvariant(Stop(s, i, now), i, io);
    case OpStop(i, now) => StopKeepsInvariant(s, i, now);
    case OpPause(i, m, now, appAt, jobAt, io) => PausingKeepsInvariant(s, i, m, now, appAt, jobAt, io);
    case OpResume(i, io) => ResumingKeepsInvariant(s, i, 0.0, n => true, io);
    case OpFire(i, now, io) => ResumingKeepsInvariant(s, i, now, n => true, io);
    case OpTick(now, writes) => ResumingKeepsInvariant(s, 0, now, writes, Io(true, true, true, true));
    case OpRevive(ids, now, grace, starts, io) => ReviveKeepsInvariant(s, ids, now, grace, starts, io);
    case OpRestart =>
  }

  /** Over every history from an empty store, whatever fails: no instance is both running and marked
      recently stopped, no subscription is stored twice, an unpaused row carries no expiry and has no
      auto-resume pending. When all subscription writes succeed, the subscription table also agrees with
      the rows. */
  lemma {:induction false} EveryHistory(ops: seq<Op>)
    ensures Invariant(Run(EMPTY, ops))
    ensures (forall k :: 0 <= k < |ops| ==> SubsSucceed(ops[k])) ==> Agrees(Run(EMPTY, ops))
  {
    if ops != [] {
      EveryHistory(Init(ops));
      ApplyKeepsInvariant(Run(EMPTY, Init(ops)), Last(ops));
      if forall k :: 0 <= k < |ops| ==> SubsSucceed(ops[k]) {
        assert forall k :: 0 <= k < |Init(ops)| ==> Init(ops)[k] == ops[k];
        ApplyAgrees(Run(EMPTY, Init(ops)), Last(ops));
      }
    }
  }

  /** Event routing: over every history whose subscription writes succeed, the instances looked up for a
      device and an event are exactly those whose current row selects the device in a category mapped
      to the event, each once. */
  lemma RoutingFollowsRows(ops: seq<Op>, d: int, e: string)
    requires forall k :: 0 <= k < |ops| ==> SubsSucceed(ops[k])
    ensures var s := Run(EMPTY, ops);
            && NoDup(Subscribed(s.subs, d, e))
            && forall i :: i in Subscribed(s.subs, d, e) <==> i in s.rows && s.rows[i].Listens(d, e)
  {
    var s := Run(EMPTY, ops);
    EveryHistory(ops);
    SubscribedElements(s.subs, d, e);
    forall i ensures i in Subscribed(s.subs, d, e) <==> i in s.rows && s.rows[i].Listens(d, e) {
      assert AgreesFor(s, i);
    }
  }

  /** After any history, with any failed writes in it, one successful start makes the instance's
      subscriptions right again. */
  lemma StartHeals(ops: seq<Op>, i: int, io: Io, now: real)
    requires io.starts && io.SubsSucceed() && i in Run(EMPTY, ops).rows
    ensures var s := Run(EMPTY, ops + [OpStart(i, io, now)]);
            AgreesFor(s, i) && i in s.running && i !in s.stoppedAt
  {
    EveryHistory(ops);
    assert Init(ops + [OpStart(i, io, now)]) == ops;
    var stopped := Stop(Run(EMPTY, ops), i, now);
    RebuildMakesRight(stopped, i, io);
    var s, r := Run(EMPTY, ops + [OpStart(i, io, now)]), Rebuild(stopped, i, io);
    assert AgreesFor(r, i) && s.subs == r.subs && s.rows == r.rows;
  }

  // ---------------------------------------------------------------------------------------------
  // The reviver
  // ---------------------------------------------------------------------------------------------

  /** The reviver starts exactly the listed instances that have a row, are not running, not paused and
      not inside the grace period, and whose app object comes up. */
  lemma {:induction false} RevivesExactlyTheDead(s: Store, ids: seq<int>, now: real, graceSecs: real, starts: int -> bool, io: Io)
    ensures var t := Revive(s, ids, now, graceSecs, starts, io);
            && t.rows == s.rows
            && (forall i :: i in t.running <==>
                  || i in s.running
                  || (i in ids && i in s.rows && !s.rows[i].isPaused && starts(i)
                      && (i in s.stoppedAt ==> now - s.stoppedAt[i] >= graceSecs)))
            && (forall i :: i in t.stoppedAt <==> i in s.stoppedAt && (i in t.running ==> i in s.running))
            && (forall i :: i in t.stoppedAt ==> t.stoppedAt[i] == s.stoppedAt[i])
  {
    if ids != [] {
      RevivesExactlyTheDead(s, Init(ids), now, graceSecs, starts, io);
      assert forall i :: i in ids <==> i in Init(ids) || i == Last(ids);
      var t := Revive(s, Init(ids), now, graceSecs, starts, io);
      assert Revivable(t, Last(ids), now, graceSecs) ==> Revivable(s, Last(ids), now, graceSecs);
    }
  }

  // ---------------------------------------------------------------------------------------------
  // Timed pauses
  // ---------------------------------------------------------------------------------------------

  /** Seconds asked for, in the whole minutes the manager works with; 0 means no end. */
  function PauseMinutes(seconds: int): int {
    if seconds == 0 then 0
    else
      var up := (seconds + 59) / 60;
      if up < 1 then 1 else up
  }

  /** Rounding up never shortens a pause and lengthens it by less than a minute; 0 stays 0, and less is a minute. */
  lemma PauseMinutesRoundUp(seconds: int)
    ensures seconds > 0 ==> seconds <= 60 * PauseMinutes(seconds) <= seconds + 59
    ensures seconds == 0 ==> PauseMinutes(seconds) == 0
    ensures seconds < 0 ==> PauseMinutes(seconds) == 1
  {
  }

  /** The operation is no explicit pause, resume or deletion of the instance. */
  predicate LeavesPause(op: Op, i: int) {
    && (op.OpPause? ==> op.id != i)
    && (op.OpResume? ==> op.id != i)
    && (op.OpDelete? ==> op.id != i)
  }

  /** A tick that ends a pause of i that expires then: late enough, and its write gets through. */
  ghost predicate TickEnds(op: Op, i: int, expires: real) {
    op.OpTick? && op.now >= expires && op.writes(i)
  }

  ghost predicate Ticked(ops: seq<Op>, i: int, expires: real) {
    exists k :: 0 <= k < |ops| && TickEnds(ops[k], i, expires)
  }

  /** The job of i, due then, fires and its write gets through. */
  ghost predicate FireEnds(op: Op, i: int, due: real) {
    op.OpFire? && op.id == i && op.now >= due && op.io.write
  }

  ghost predicate Fired(ops: seq<Op>, i: int, due: real) {
    exists k :: 0 <= k < |ops| && FireEnds(ops[k], i, due)
  }

  /** What a run that leaves the pause alone does to it: a paused row still has its expiry, and its job, if
      still pending, is the one it had; nothing but a reconciler tick at or after the expiry, or that job,
      has ended it, and such a tick has; an ended pause stays ended. */
  ghost predicate PauseAfter(s: Store, ops: seq<Op>, i: int)
    requires i in s.rows && s.rows[i].isPaused
  {
    var t, expires := Run(s, ops), s.rows[i].pauseExpiresAt;
    && i in t.rows
    && (t.rows[i].isPaused ==>
          && t.rows[i].pauseExpiresAt == expires
          && (i in t.jobs ==> i in s.jobs && t.jobs[i] == s.jobs[i])
          && (expires.Some? ==> !Ticked(ops, i, expires.value)))
    && (!t.rows[i].isPaused ==>
          || (expires.Some? && Ticked(ops, i, expires.value))
          || (i in s.jobs && Fired(ops, i, s.jobs[i])))
  }

  lemma {:induction false} ReviveKeepsRows(s: Store, ids: seq<int>, now: real, graceSecs: real, starts: int -> bool, io: Io)
    ensures Revive(s, ids, now, graceSecs, starts, io).rows == s.rows
    ensures Revive(s, ids, now, graceSecs, starts, io).jobs == s.jobs
  {
    if ids != [] {
      ReviveKeepsRows(s, Init(ids), now, graceSecs, starts, io);
    }
  }

  /** The pause columns of row i are as before, and no new job of i is pending. */
  ghost predicate SamePause(s: Store, t: Store, i: int)
    requires i in s.rows
  {
    && i in t.rows
    && t.rows[i].isPaused == s.rows[i].isPaused
    && t.rows[i].pauseExpiresAt == s.rows[i].pauseExpiresAt
    && (i in t.jobs ==> i in s.jobs && t.jobs[i] == s.jobs[i])
  }

  lemma CreateKeepsPause(s: Store, selections: seq<Selection>, buttonEvent: Option<string>, io: Io, i: int)
    requires FreshIds(s) && i in s.rows
    ensures SamePause(s, Create(s, selections, buttonEvent, io), i)
  {
  }

  lemma StartKeepsPause(s: Store, j: int, io: Io)
    ensures Rebuild(s, j, io).rows == Start(s, j, io).rows == s.rows
    ensures Rebuild(s, j, io).jobs == Start(s, j, io).jobs == s.jobs
  {
  }

  lemma StopKeepsPause(s: Store, j: int, now: real, i: int)
    requires i in s.rows
    ensures SamePause(s, Stop(s, j, now), i) && Stop(s, j, now).rows == s.rows
  {
  }

  lemma UpdateKeepsPause(s: Store, j: int, c: Change, io: Io, now: real, i: int)
    requires i in s.rows
    ensures SamePause(s, Update(s, j, c, io, now), i)
  {
    var stopped := Stop(s, j, now);
    StopKeepsPause(s, j, now, i);
    StartKeepsPause(stopped, j, io);
    var patched := if j in s.rows then stopped.(rows := s.rows[j := Changed(s.rows[j], c)]) else stopped;
    assert SamePause(s, patched, i);
    StartKeepsPause(patched, j, io);
    StartKeepsPause(Rebuild(patched, j, io), j, io);
  }

  /** The operation ends the pause of row i. */
  predicate EndsPause(s: Store, op: Op, i: int)
    requires i in s.rows
  {
    || (op.OpTick? && Ends(s, i, op.now, op.writes))
    || (op.OpFire? && op.id == i && i in s.jobs && s.jobs[i] <= op.now && op.io.write)
  }

  /** Only a reconciler tick at or after its expiry, or its own job, touches a pause that nobody sets, ends
      or deletes. */
  lemma ApplyToPause(s: Store, op: Op, i: int)
    requires FreshIds(s) && i in s.rows && LeavesPause(op, i)
    ensures if EndsPause(s, op, i)
            then var t := Apply(s, op); i in t.rows && !t.rows[i].isPaused && t.rows[i].pauseExpiresAt.None?
            else SamePause(s, Apply(s, op), i)
  {
    match op
    case OpCreate(sel, button, io) => CreateKeepsPause(s, sel, button, io, i);
    case OpUpdate(j, c, io, now) => UpdateKeepsPause(s, j, c, io, now, i);
    case OpRevive(ids, now, grace, starts, io) => ReviveKeepsRows(s, ids, now, grace, starts, io);
    case OpStart(j, io, now) =>
      StopKeepsPause(s, j, now, i);
      StartKeepsPause(Stop(s, j, now), j, io);
    case _ =>
  }

  lemma {:induction false} PauseRun(s: Store, ops: seq<Op>, i: int)
    requires Invariant(s) && i in s.rows && s.rows[i].isPaused
    requires forall k :: 0 <= k < |ops| ==> LeavesPause(ops[k], i)
    ensures Invariant(Run(s, ops))
    ensures PauseAfter(s, ops, i)
  {
    if ops != [] {
      var prev, op := Init(ops), Last(ops);
      assert forall k :: 0 <= k < |prev| ==> prev[k] == ops[k];
      assert ops == prev + [op];
      PauseRun(s, prev, i);
      ApplyKeepsInvariant(Run(s, prev), op);
      ApplyToPause(Run(s, prev), op, i);
      PauseStep(s, prev, op, i);
    }
  }

  lemma PauseStep(s: Store, prev: seq<Op>, op: Op, i: int)
    requires i in s.rows && s.rows[i].isPaused && PauseAfter(s, prev, i) && Invariant(Run(s, prev))
    requires if EndsPause(Run(s, prev), op, i)
             then var t := Apply(Run(s, prev), op); i in t.rows && !t.rows[i].isPaused && t.rows[i].pauseExpiresAt.None?
             else SamePause(Run(s, prev), Apply(Run(s, prev), op), i)
    ensures PauseAfter(s, prev + [op], i)
  {
    assert Init(prev + [op]) == prev;
    if s.rows[i].pauseExpiresAt.Some? {
      TickedLonger(prev, op, i, s.rows[i].pauseExpiresAt.value);
    }
    if i in s.jobs {
      FiredLonger(prev, op, i, s.jobs[i]);
    }
  }

  lemma TickedLonger(prev: seq<Op>, op: Op, i: int, expires: real)
    ensures Ticked(prev + [op], i, expires) <==> TickEnds(op, i, expires) || Ticked(prev, i, expires)
  {
    var ops := prev + [op];
    if k :| 0 <= k < |prev| && TickEnds(prev[k], i, expires) {
      assert TickEnds(ops[k], i, expires);
    }
    if TickEnds(op, i, expires) {
      assert TickEnds(ops[|prev|], i, expires);
    }
  }

  lemma FiredLonger(prev: seq<Op>, op: Op, i: int, due: real)
    ensures Fired(prev + [op], i, due) <==> FireEnds(op, i, due) || Fired(prev, i, due)
  {
    var ops := prev + [op];
    if k :| 0 <= k < |prev| && FireEnds(prev[k], i, due) {
      assert FireEnds(ops[k], i, due);
    }
    if FireEnds(op, i, due) {
      assert FireEnds(ops[|prev|], i, due);
    }
  }

  /** Neither a tick nor a job fires later than this. */
  ghost predicate TimedUpTo(ops: seq<Op>, instant: real) {
    forall k :: 0 <= k < |ops| ==>
                  (ops[k].OpTick? ==> ops[k].now <= instant) && (ops[k].OpFire? ==> ops[k].now <= instant)
  }

  /** A pause of `seconds` > 0 set at t0 on an unpaused instance, the app's own write of it coming no later
      than t1: whatever else happens, restarts included, the row is paused at every instant before
      t0 + seconds, and unpaused at every instant from t1 + seconds + 119 on at which the last reconciler
      tick that got through to it is at most 60 seconds old. */
  lemma TimedPauseBounds(past: seq<Op>, i: int, seconds: int, t0: real, appAt: Option<real>, jobAt: real, io: Io,
                         t1: real, ops: seq<Op>, instant: real)
    requires seconds > 0 && io.write && t0 <= t1 && t0 <= jobAt && (appAt.Some? ==> t0 <= appAt.value <= t1)
    requires i in Run(EMPTY, past).rows && !Run(EMPTY, past).rows[i].isPaused
    requires forall k :: 0 <= k < |ops| ==> LeavesPause(ops[k], i)
    requires TimedUpTo(ops, instant)
    ensures var t := Run(Pause(Run(EMPTY, past), i, PauseMinutes(seconds), t0, appAt, jobAt, io), ops);
            && i in t.rows
            && (instant < t0 + seconds as real ==> t.rows[i].isPaused)
            && (instant >= t1 + seconds as real + 119.0 && Ticked(ops, i, instant - 60.0) ==> !t.rows[i].isPaused)
  {
    var s := Run(EMPTY, past);
    var paused := Pause(s, i, PauseMinutes(seconds), t0, appAt, jobAt, io);
    EveryHistory(past);
    ApplyKeepsInvariant(s, OpPause(i, PauseMinutes(seconds), t0, appAt, jobAt, io));
    PauseMinutesRoundUp(seconds);
    PauseRun(paused, ops, i);
    var expires := paused.rows[i].pauseExpiresAt.value;
    assert t0 + seconds as real <= expires <= t1 + seconds as real + 59.0;
    assert i in paused.jobs ==> paused.jobs[i] >= t0 + seconds as real;
    if k :| 0 <= k < |ops| && TickEnds(ops[k], i, instant - 60.0) {
      if instant >= t1 + seconds as real + 119.0 {
        assert TickEnds(ops[k], i, expires);
      }
    }
  }

  /** A pause without end set on an unpaused instance is ended by no reconciler tick and by no job. */
  lemma IndefinitePauseStays(past: seq<Op>, i: int, t0: real, appAt: Option<real>, jobAt: real, io: Io, ops: seq<Op>)
    requires io.write && i in Run(EMPTY, past).rows && !Run(EMPTY, past).rows[i].isPaused
    requires forall k :: 0 <= k < |ops| ==> LeavesPause(ops[k], i)
    ensures var t := Run(Pause(Run(EMPTY, past), i, PauseMinutes(0), t0, appAt, jobAt, io), ops);
            i in t.rows && t.rows[i].isPaused && t.rows[i].pauseExpiresAt.None?
  {
    EveryHistory(past);
    ApplyKeepsInvariant(Run(EMPTY, past), OpPause(i, 0, t0, appAt, jobAt, io));
    PauseRun(Pause(Run(EMPTY, past), i, 0, t0, appAt, jobAt, io), ops, i);
  }

  /** The tables after a tick, by the list of instances it resumed. */
  lemma TickFromResumed(s: Store, now: real, writes: int -> bool, resumed: seq<int>, rows: map<int, Row>, jobs: map<int, real>)
    requires forall i :: i in resumed <==> Ends(s, i, now, writes)
    requires rows.Keys == s.rows.Keys
    requires forall i :: i in rows ==> rows[i] == if i in resumed then Resumed(s.rows[i]) else s.rows[i]
    requires forall i :: i in jobs <==> i in s.jobs && !(i in resumed && i in s.running)
    requires forall i :: i in jobs ==> jobs[i] == s.jobs[i]
    ensures Tick(s, now, writes) == s.(rows := rows, jobs := jobs)
  {
    var ticked := Tick(s, now, writes);
    MapsEqual(rows, ticked.rows);
    forall i ensures i in jobs <==> i in ticked.jobs {}
    forall i | i in jobs ensures jobs[i] == ticked.jobs[i] {
      assert i in ticked.jobs && ticked.jobs[i] == s.jobs[i];
    }
    MapsEqual(jobs, ticked.jobs);
  }

  // ---------------------------------------------------------------------------------------------
  // The manager
  // ---------------------------------------------------------------------------------------------

  class InstanceManager {
    // The database.
    var rows: map<int, Row>
    var subs: seq<Sub>
    var nextId: int
    // The process's memory.
    var runningInstances: set<int>
    var recentlyStopped: map<int, real>
    var autoResumeJobs: map<int, real>

    ghost function Current(): Store
      reads this
    {
      Store(rows, subs, nextId, runningInstances, recentlyStopped, autoResumeJobs)
    }

    constructor ()
      ensures Current() == EMPTY
    {
      rows, subs, nextId := map[], [], 1;
      runningInstances, recentlyStopped, autoResumeJobs := {}, map[], map[];
    }

    method CreateSubscriptions(id: int, io: Io)
      modifies this`subs
      ensures Current() == Insert(old(Current()), id, io)
    {
      if id in rows {
        var more := BuildSubscriptions(id, rows[id].selections, rows[id].Button());
        if io.insertSubs {
          subs := AddNew(subs, more);
        }
      }
    }

    method RebuildSubscriptions(id: int, io: Io)
      modifies this`subs
      ensures Current() == Rebuild(old(Current()), id, io)
    {
      if io.clearSubs {
        subs := Without(subs, id);
      }
      CreateSubscriptions(id, io);
    }

    method StartFromDb(id: int, io: Io) returns (started: bool)
      modifies this`subs, this`runningInstances, this`recentlyStopped
      ensures Current() == Start(old(Current()), id, io)
      ensures started <==> id in rows && io.starts
    {
      if id !in rows || !io.starts {
        return false;
      }
      RebuildSubscriptions(id, io);
      runningInstances := runningInstances + {id};
      recentlyStopped := recentlyStopped - {id};
      return true;
    }

    /** A stopped app's shutdown cancels its scheduled jobs. */
    method StopInstance(id: int, now: real) returns (stopped: bool)
      modifies this`runningInstances, this`recentlyStopped, this`autoResumeJobs
      ensures Current() == Stop(old(Current()), id, now)
      ensures stopped <==> id in old(runningInstances)
    {
      if id !in runningInstances {
        return false;
      }
      autoResumeJobs := autoResumeJobs - {id};
      runningInstances := runningInstances - {id};
      recentlyStopped := recentlyStopped[id := now];
      return true;
    }

    /** The start endpoint. */
    method RestartInstance(id: int, io: Io, now: real) returns (started: bool)
      modifies this`subs, this`runningInstances, this`recentlyStopped, this`autoResumeJobs
      ensures Current() == Restart(old(Current()), id, io, now)
      ensures started <==> id in rows && io.starts
    {
      var stopped := StopInstance(id, now);
      started := StartFromDb(id, io);
    }

    method CreateInstance(selections: seq<Selection>, buttonEvent: Option<string>, io: Io) returns (id: Option<int>)
      modifies this
      ensures Current() == Create(old(Current()), selections, buttonEvent, io)
      ensures id == if io.write then Some(old(nextId)) else None
    {
      if !io.write {
        return None;
      }
      var i := nextId;
      rows := rows[i := Row(selections, buttonEvent, false, None)];
      nextId := nextId + 1;
      CreateSubscriptions(i, io);
      var started := StartFromDb(i, io);
      return Some(i);
    }

    method UpdateInstance(id: int, change: Change, io: Io, now: real) returns (updated: bool)
      modifies this
      ensures Current() == Update(old(Current()), id, change, io, now)
      ensures updated <==>
                io.write || (!change.relabels && change.selections.None? && (change.settings.None? || id !in old(rows)))
      ensures !updated ==> rows == old(rows)
    {
      if !change.relabels && change.selections.None? && (change.settings.None? || id !in rows) {
        return true;
      }
      var stopped := StopInstance(id, now);
      if !io.write {
        var restarted := StartFromDb(id, io);
        return false;
      }
      if id in rows {
        rows := rows[id := Changed(rows[id], change)];
      }
      RebuildSubscriptions(id, io);
      var started := StartFromDb(id, io);
      return true;
    }

    method DeleteInstance(id: int, io: Io, now: real) returns (deleted: bool)
      modifies this
      ensures Current() == Delete(old(Current()), id, io, now)
      ensures deleted == io.write
    {
      var stopped := StopInstance(id, now);
      if !io.write {
        return false;
      }
      rows := rows - {id};
      subs := Without(subs, id);
      return true;
    }

    method PauseInstance(id: int, minutes: int, now: real, appAt: Option<real>, jobAt: real, io: Io) returns (paused: bool)
      modifies this`rows, this`autoResumeJobs
      ensures Current() == Pause(old(Current()), id, minutes, now, appAt, jobAt, io)
      ensures paused == io.write
    {
      if !io.write {
        return false;
      }
      if id in rows {
        rows := rows[id := rows[id].(isPaused := true)];
        if minutes != 0 {
          rows := rows[id := rows[id].(pauseExpiresAt := Some(now + 60.0 * minutes as real))];
        }
        if id in runningInstances {
          AppPause(id, minutes, appAt, jobAt);
        }
      }
      return true;
    }

    /** The running app's part: its own write of the pause, if it gets through, then its auto-resume job. */
    method AppPause(id: int, minutes: int, at: Option<real>, jobAt: real)
      requires id in rows
      modifies this`rows, this`autoResumeJobs
      ensures rows == if at.None? then old(rows) else
                old(rows)[id := old(rows)[id].(
                  isPaused := true,
                  pauseExpiresAt := if minutes > 0 then Some(at.value + 60.0 * minutes as real) else None)]
      ensures autoResumeJobs ==
              if minutes > 0 then old(autoResumeJobs)[id := jobAt + 60.0 * minutes as real] else old(autoResumeJobs)
    {
      if at.Some? {
        var expires := if minutes > 0 then Some(at.value + 60.0 * minutes as real) else None;
        rows := rows[id := rows[id].(isPaused := true, pauseExpiresAt := expires)];
      }
      if minutes > 0 {
        autoResumeJobs := autoResumeJobs[id := jobAt + 60.0 * minutes as real];
      }
    }

    method ResumeInstance(id: int, io: Io) returns (resumed: bool)
      modifies this`rows, this`autoResumeJobs
      ensures Current() == Resume(old(Current()), id, io)
      ensures resumed == io.write
    {
      if io.write && id in rows {
        rows := rows[id := Resumed(rows[id])];
        if id in runningInstances {
          autoResumeJobs := autoResumeJobs - {id};
        }
      }
      return io.write;
    }

    /** The scheduler runs the job of an instance whose time has come. */
    method AutoResume(id: int, now: real, io: Io)
      requires id in autoResumeJobs && autoResumeJobs[id] <= now
      modifies this`rows, this`autoResumeJobs
      ensures Current() == Fire(old(Current()), id, now, io)
    {
      autoResumeJobs := autoResumeJobs - {id};
      var resumed := ResumeInstance(id, io);
    }

    /** The reconciler's loop body. */
    method ResumeIfExpired(id: int, now: real, write: bool) returns (resumed: bool)
      requires id in rows
      modifies this`rows, this`autoResumeJobs
      ensures resumed <==> old(rows)[id].Expired(now) && write
      ensures rows == if resumed then old(rows)[id := Resumed(old(rows)[id])] else old(rows)
      ensures autoResumeJobs == if resumed && id in runningInstances then old(autoResumeJobs) - {id} else old(autoResumeJobs)
    {
      if rows[id].Expired(now) {
        resumed := ResumeInstance(id, Io(write, true, true, true));
      } else {
        resumed := false;
      }
    }

    /** The reconciler's query and loop. listed enumerates the table; writes(i) tells whether the write of
        instance i gets through. */
    method ResumeExpiredPauses(listed: seq<int>, now: real, writes: int -> bool) returns (resumed: seq<int>)
      requires forall i :: i in listed <==> i in rows
      modifies this`rows, this`autoResumeJobs
      ensures Current() == Tick(old(Current()), now, writes)
      ensures forall i :: i in resumed <==> Ends(old(Current()), i, now, writes)
    {
      resumed := [];
      ghost var before := Current();
      for k := 0 to |listed|
        invariant rows.Keys == old(rows).Keys && runningInstances == old(runningInstances)
        invariant forall i :: i in resumed <==> i in listed[..k] && Ends(before, i, now, writes)
        invariant forall i :: i in rows ==> rows[i] == if i in resumed then Resumed(old(rows)[i]) else old(rows)[i]
        invariant forall i :: i in autoResumeJobs <==> i in old(autoResumeJobs) && !(i in resumed && i in runningInstances)
        invariant forall i :: i in autoResumeJobs ==> autoResumeJobs[i] == old(autoResumeJobs)[i]
      {
        var i := listed[k];
        assert i in listed;
        var ok := ResumeIfExpired(i, now, writes(i));
        if ok {
          resumed := resumed + [i];
        }
      }
      assert listed[..|listed|] == listed;
      TickFromResumed(before, now, writes, resumed, rows, autoResumeJobs);
    }

    /** The reviver's loop over the listed rows; starts(i) tells whether app object i comes up. */
    method ReviveDeadInstances(ids: seq<int>, now: real, graceSecs: real, starts: int -> bool, io: Io)
      modifies this`subs, this`runningInstances, this`recentlyStopped
      ensures Current() == Revive(old(Current()), ids, now, graceSecs, starts, io)
    {
      for k := 0 to |ids|
        invariant Current() == Revive(old(Current()), ids[..k], now, graceSecs, starts, io)
      {
        assert Init(ids[..k + 1]) == ids[..k];
        var i := ids[k];
        if i !in rows || i in runningInstances || rows[i].isPaused {
          continue;
        }
        if i in recentlyStopped && now - recentlyStopped[i] < graceSecs {
          continue;
        }
        var started := StartFromDb(i, io.(starts := starts(i)));
      }
      assert ids[..|ids|] == ids;
    }
  }
}
