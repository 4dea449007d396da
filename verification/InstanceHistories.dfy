/**
  What the lifecycle of Instances amounts to over whole histories, read off the requests alone: which rows exist and
  what they hold, who is running, when a stopped instance comes back, and whom an event reaches.
  */
module InstanceHistories {
  import opened Prelude
  import opened Subscriptions
  import opened Instances

  // ---------------------------------------------------------------------------------------------
  // The rows
  // ---------------------------------------------------------------------------------------------

  /** The store before request k of a history. */
  function Before(ops: seq<Op>, k: int): Store
    requires 0 <= k <= |ops|
  {
    Run(EMPTY, ops[..k])
  }

  /** Request k creates instance i: its insert gets through and i is the id handed out. */
  predicate Creates(ops: seq<Op>, k: int, i: int) {
    0 <= k < |ops| && ops[k].OpCreate? && ops[k].io.write && Before(ops, k).nextId == i
  }

  /** Request k deletes instance i. */
  predicate Deletes(ops: seq<Op>, k: int, i: int) {
    0 <= k < |ops| && ops[k].OpDelete? && ops[k].id == i && ops[k].io.write
  }

  /** Request k gets through to the row of i with device selections. */
  predicate SendsSelections(ops: seq<Op>, k: int, i: int) {
    || Creates(ops, k, i)
    || (0 <= k < |ops| && ops[k].OpUpdate? && ops[k].id == i && ops[k].io.write && ops[k].change.selections.Some?)
  }

  function SentSelections(op: Op): seq<Selection>
    requires op.OpCreate? || (op.OpUpdate? && op.change.selections.Some?)
  {
    if op.OpCreate? then op.selections else op.change.selections.value
  }

  /** Request k gets through to the row of i with a button event: a create's, given or not, or an update's settings
      that hold one; other settings are merged over it. */
  predicate SendsButton(ops: seq<Op>, k: int, i: int) {
    || Creates(ops, k, i)
    || (0 <= k < |ops| && ops[k].OpUpdate? && ops[k].id == i && ops[k].io.write
        && ops[k].change.settings.Some? && ops[k].change.settings.value.Some?)
  }

  function SentButton(op: Op): Option<string>
    requires op.OpCreate? || (op.OpUpdate? && op.change.settings.Some?)
  {
    if op.OpCreate? then op.buttonEvent else op.change.settings.value
  }

  /** What one request does to the row of one instance. */
  lemma RowAfter(s: Store, op: Op, i: int)
    requires Invariant(s)
    ensures var t := Apply(s, op);
            var created := op.OpCreate? && op.io.write && s.nextId == i;
            && (i in t.rows <==> created || (i in s.rows && !(op.OpDelete? && op.id == i && op.io.write)))
            && (created ==> t.rows[i] == Row(op.selections, op.buttonEvent, false, None))
            && (i in s.rows && i in t.rows ==>
                  && (t.rows[i].selections ==
                      if op.OpUpdate? && op.id == i && op.io.write && op.change.selections.Some?
                      then op.change.selections.value else s.rows[i].selections)
                  && (t.rows[i].buttonEvent ==
                      if op.OpUpdate? && op.id == i && op.io.write && op.change.settings.Some? && op.change.settings.value.Some?
                      then op.change.settings.value else s.rows[i].buttonEvent))
    ensures Apply(s, op).nextId == s.nextId + if op.OpCreate? && op.io.write then 1 else 0
  {
    match op
    case OpUpdate(j, c, io, now) => UpdatedRows(s, j, c, io, now);
    case OpStart(j, io, now) => StartKeepsPause(Stop(s, j, now), j, io);
    case OpRevive(ids, now, grace, starts, io) =>
      ReviveKeepsRows(s, ids, now, grace, starts, io);
      ReviveKeepsIds(s, ids, now, grace, starts, io);
    case _ =>
  }

  lemma UpdatedRows(s: Store, j: int, c: Change, io: Io, now: real)
    ensures var t := Update(s, j, c, io, now);
            && t.nextId == s.nextId
            && t.rows == if io.write && j in s.rows then s.rows[j := Changed(s.rows[j], c)] else s.rows
  {
    if j in s.rows && !c.relabels && c.selections.None? && c.settings.None? {
      assert Changed(s.rows[j], c) == s.rows[j];
      assert s.rows[j := s.rows[j]] == s.rows;
    }
  }

  lemma {:induction false} ReviveKeepsIds(s: Store, ids: seq<int>, now: real, graceSecs: real, starts: int -> bool, io: Io)
    ensures Revive(s, ids, now, graceSecs, starts, io).nextId == s.nextId
  {
    if ids != [] {
      ReviveKeepsIds(s, Init(ids), now, graceSecs, starts, io);
    }
  }

  lemma PrefixesOfInit(ops: seq<Op>, i: int)
    requires ops != []
    ensures ops[..|ops| - 1] == Init(ops) && Before(ops, |ops|) == Run(EMPTY, ops)
    ensures forall k :: k < |ops| - 1 ==>
              && (Creates(ops, k, i) <==> Creates(Init(ops), k, i))
              && (Deletes(ops, k, i) <==> Deletes(Init(ops), k, i))
              && (SendsSelections(ops, k, i) <==> SendsSelections(Init(ops), k, i))
              && (SendsButton(ops, k, i) <==> SendsButton(Init(ops), k, i))
  {
    assert ops[..|ops|] == ops;
    forall k | 0 <= k < |ops| - 1 ensures Init(ops)[..k] == ops[..k] && Init(ops)[k] == ops[k] {}
  }

  /** Request k creates instance i, and no later one deletes it. */
  ghost predicate CreatedForKeeps(ops: seq<Op>, i: int, k: int) {
    Creates(ops, k, i) && forall j :: k < j < |ops| ==> !Deletes(ops, j, i)
  }

  lemma OneMoreRequest(ops: seq<Op>, i: int)
    requires ops != []
    ensures (exists k :: CreatedForKeeps(ops, i, k)) <==>
              || Creates(ops, |ops| - 1, i)
              || ((exists k :: CreatedForKeeps(Init(ops), i, k)) && !Deletes(ops, |ops| - 1, i))
  {
    var n := |ops| - 1;
    PrefixesOfInit(ops, i);
    if k :| CreatedForKeeps(ops, i, k) {
      if k < n {
        assert CreatedForKeeps(Init(ops), i, k);
      }
    }
    if Creates(ops, n, i) {
      assert CreatedForKeeps(ops, i, n);
    }
    if k :| CreatedForKeeps(Init(ops), i, k) && !Deletes(ops, n, i) {
      assert CreatedForKeeps(ops, i, k);
    }
  }

  /** Over every history a row exists exactly when its instance was created and not deleted since. */
  lemma {:induction false} RowExistsExactlyUntilDeleted(ops: seq<Op>, i: int)
    ensures i in Run(EMPTY, ops).rows <==> exists k :: CreatedForKeeps(ops, i, k)
  {
    if ops != [] {
      RowExistsExactlyUntilDeleted(Init(ops), i);
      OneMoreRequest(ops, i);
      EveryHistory(Init(ops));
      RowAfter(Run(EMPTY, Init(ops)), Last(ops), i);
      PrefixesOfInit(ops, i);
    }
  }

  /** Request k is the last one to send selections to the row of i, and request b the last one to send a button. */
  ghost predicate LastSent(ops: seq<Op>, i: int, k: int, b: int) {
    && SendsSelections(ops, k, i) && (forall j :: k < j < |ops| ==> !SendsSelections(ops, j, i))
    && SendsButton(ops, b, i) && (forall j :: b < j < |ops| ==> !SendsButton(ops, j, i))
  }

  /** Over every history a row holds the selections and the button event last sent to it that got through. */
  lemma {:induction false} RowHoldsWhatWasLastSent(ops: seq<Op>, i: int) returns (k: int, b: int)
    requires i in Run(EMPTY, ops).rows
    ensures LastSent(ops, i, k, b)
    ensures Run(EMPTY, ops).rows[i].selections == SentSelections(ops[k])
    ensures Run(EMPTY, ops).rows[i].buttonEvent == SentButton(ops[b])
  {
    var n, s := |ops| - 1, Run(EMPTY, Init(ops));
    PrefixesOfInit(ops, i);
    EveryHistory(Init(ops));
    RowAfter(s, Last(ops), i);
    k, b := n, n;
    if i in s.rows && !Creates(ops, n, i) {
      k, b := RowHoldsWhatWasLastSent(Init(ops), i);
      if SendsSelections(ops, n, i) {
        k := n;
      }
      if SendsButton(ops, n, i) {
        b := n;
      }
    }
  }

  // ---------------------------------------------------------------------------------------------
  // Whom an event reaches
  // ---------------------------------------------------------------------------------------------

  /** A selection lists the device in a category through which the event is heard. */
  ghost predicate HearsThrough(selections: seq<Selection>, button: string, d: int, e: string) {
    exists k :: 0 <= k < |selections| && Id(d) in selections[k].devices
                && (selections[k].category in Hearing(e) || (selections[k].category == PauseButtons && e == button != ""))
  }

  lemma SelectsIsHearing(selections: seq<Selection>, button: string, d: int, e: string)
    ensures Selects(selections, button, d, e) <==> HearsThrough(selections, button, d, e)
  {
    forall k | 0 <= k < |selections|
      ensures SelectsAt(selections[k], button, d, e) <==>
                Id(d) in selections[k].devices
                && (selections[k].category in Hearing(e) || (selections[k].category == PauseButtons && e == button != ""))
    {
      HeardThrough(selections[k].category, button, e);
    }
    if k :| 0 <= k < |selections| && SelectsAt(selections[k], button, d, e) {
      assert Id(d) in selections[k].devices;
    }
  }

  /** Routing, from the requests alone: over every history whose subscription writes succeed, an event of a device
      reaches an existing instance exactly when the selections last sent to it list the device in a category that
      hears the event, its pause buttons hearing the button event last sent, "held" where none was. */
  lemma EventReachesByLastSent(ops: seq<Op>, i: int, d: int, e: string) returns (k: int, b: int)
    requires forall j :: 0 <= j < |ops| ==> SubsSucceed(ops[j])
    ensures i in Subscribed(Run(EMPTY, ops).subs, d, e) ==> i in Run(EMPTY, ops).rows
    ensures i in Run(EMPTY, ops).rows ==>
              && LastSent(ops, i, k, b)
              && var button := SentButton(ops[b]);
              (i in Subscribed(Run(EMPTY, ops).subs, d, e) <==>
               HearsThrough(SentSelections(ops[k]), if button.Some? then button.value else "held", d, e))
  {
    RoutingFollowsRows(ops, d, e);
    k, b := 0, 0;
    if i in Run(EMPTY, ops).rows {
      k, b := RowHoldsWhatWasLastSent(ops, i);
      SelectsIsHearing(SentSelections(ops[k]), SentButton(ops[b]).GetOr("held"), d, e);
    }
  }

  /** An update that gets through reroutes its instance: to what it sends, and otherwise to what was there. */
  lemma UpdateReroutes(past: seq<Op>, i: int, c: Change, io: Io, now: real, d: int, e: string)
    requires forall j :: 0 <= j < |past| ==> SubsSucceed(past[j])
    requires io.SubsSucceed() && io.write && i in Run(EMPTY, past).rows
    ensures var row := Run(EMPTY, past).rows[i];
            var selections := if c.selections.Some? then c.selections.value else row.selections;
            var button := if c.settings.Some? && c.settings.value.Some? then c.settings.value else row.buttonEvent;
            i in Subscribed(Run(EMPTY, past + [OpUpdate(i, c, io, now)]).subs, d, e) <==>
            HearsThrough(selections, if button.Some? then button.value else "held", d, e)
  {
    var op := OpUpdate(i, c, io, now);
    var ops := past + [op];
    InitSnoc(past, op);
    EveryHistory(past);
    RowAfter(Run(EMPTY, past), op, i);
    RoutingFollowsRows(ops, d, e);
    var row := Run(EMPTY, ops).rows[i];
    SelectsIsHearing(row.selections, row.Button(), d, e);
  }

  /** A create that gets through: a new id, never in use before, with an unpaused row of what was given. */
  lemma CreatedAsGiven(past: seq<Op>, selections: seq<Selection>, buttonEvent: Option<string>, io: Io)
    requires io.write
    ensures var i, s := Run(EMPTY, past).nextId, Run(EMPTY, past + [OpCreate(selections, buttonEvent, io)]);
            && i in s.rows && s.rows[i] == Row(selections, buttonEvent, false, None)
            && (i in s.running <==> io.starts)
            && forall k :: 0 <= k <= |past| ==> i !in Run(EMPTY, past[..k]).rows
  {
    var op := OpCreate(selections, buttonEvent, io);
    InitSnoc(past, op);
    EveryHistory(past);
    RowAfter(Run(EMPTY, past), op, Run(EMPTY, past).nextId);
    forall k | 0 <= k <= |past| ensures Run(EMPTY, past).nextId !in Run(EMPTY, past[..k]).rows {
      IdsAscend(past, k);
      EveryHistory(past[..k]);
    }
  }

  lemma {:induction false} IdsAscend(ops: seq<Op>, k: nat)
    requires k <= |ops|
    ensures Run(EMPTY, ops[..k]).nextId <= Run(EMPTY, ops).nextId
    decreases |ops|
  {
    if k == |ops| {
      assert ops[..k] == ops;
    } else {
      IdsAscend(Init(ops), k);
      assert Init(ops)[..k] == ops[..k];
      EveryHistory(Init(ops));
      RowAfter(Run(EMPTY, Init(ops)), Last(ops), 0);
    }
  }

  // ---------------------------------------------------------------------------------------------
  // Deleted for good
  // ---------------------------------------------------------------------------------------------

  ghost predicate SubsHaveRows(s: Store) {
    forall sub :: sub in s.subs ==> sub.instance in s.rows
  }

  lemma StartKeepsSubsWithRows(s: Store, i: int, io: Io)
    requires SubsHaveRows(s)
    ensures SubsHaveRows(Insert(s, i, io)) && SubsHaveRows(Rebuild(s, i, io)) && SubsHaveRows(Start(s, i, io))
  {
    WithoutElements(s.subs, i);
    if i in s.rows {
      var row := s.rows[i];
      WantedIsSelected(i, row.selections, row.Button());
      AddNewElements(s.subs, Wanted(i, row.selections, row.Button()));
      AddNewElements(Without(s.subs, i), Wanted(i, row.selections, row.Button()));
    }
  }

  lemma {:induction false} ReviveKeepsSubsWithRows(
    s: Store, ids: seq<int>, now: real, graceSecs: real, starts: int -> bool, io: Io)
    requires SubsHaveRows(s)
    ensures SubsHaveRows(Revive(s, ids, now, graceSecs, starts, io))
  {
    if ids != [] {
      ReviveKeepsSubsWithRows(s, Init(ids), now, graceSecs, starts, io);
      StartKeepsSubsWithRows(Revive(s, Init(ids), now, graceSecs, starts, io), Last(ids), io.(starts := starts(Last(ids))));
    }
  }

  lemma ApplyKeepsSubsWithRows(s: Store, op: Op)
    requires SubsHaveRows(s)
    ensures SubsHaveRows(Apply(s, op))
  {
    match op
    case OpCreate(sel, button, io) =>
      if io.write {
        var i := s.nextId;
        var inserted := s.(rows := s.rows[i := Row(sel, button, false, None)], nextId := i + 1);
        StartKeepsSubsWithRows(inserted, i, io);
        StartKeepsSubsWithRows(Insert(inserted, i, io), i, io);
      }
    case OpUpdate(i, c, io, now) =>
      var stopped := Stop(s, i, now);
      StartKeepsSubsWithRows(stopped, i, io);
      var patched := if i in s.rows then stopped.(rows := s.rows[i := Changed(s.rows[i], c)]) else stopped;
      StartKeepsSubsWithRows(patched, i, io);
      StartKeepsSubsWithRows(Rebuild(patched, i, io), i, io);
    case OpDelete(i, io, now) => WithoutElements(s.subs, i);
    case OpStart(i, io, now) => StartKeepsSubsWithRows(Stop(s, i, now), i, io);
    case OpRevive(ids, now, grace, starts, io) => ReviveKeepsSubsWithRows(s, ids, now, grace, starts, io);
    case _ =>
  }

  /** Whatever writes fail, no subscription is left without a row: nothing is routed to an instance that is gone. */
  lemma {:induction false} NothingIsRoutedToTheGone(ops: seq<Op>)
    ensures SubsHaveRows(Run(EMPTY, ops))
    ensures forall i, d, e :: i in Subscribed(Run(EMPTY, ops).subs, d, e) ==> i in Run(EMPTY, ops).rows
  {
    if ops != [] {
      NothingIsRoutedToTheGone(Init(ops));
      ApplyKeepsSubsWithRows(Run(EMPTY, Init(ops)), Last(ops));
    }
    var s := Run(EMPTY, ops);
    forall i, d, e | i in Subscribed(s.subs, d, e) ensures i in s.rows {
      SubscribedElements(s.subs, d, e);
      assert Sub(d, i, e) in s.subs;
    }
  }

  /** A delete that gets through is for good, whatever comes after and whatever fails: no row, not running, no events;
      its id is never handed out again. */
  lemma {:induction false} DeletedForGood(past: seq<Op>, i: int, io: Io, now: real, ops: seq<Op>)
    requires i in Run(EMPTY, past).rows && io.write
    ensures var s := Run(EMPTY, past + [OpDelete(i, io, now)] + ops);
            && i !in s.rows && i !in s.running && i !in s.jobs && i < s.nextId
            && forall d, e :: i !in Subscribed(s.subs, d, e)
  {
    var deleted := past + [OpDelete(i, io, now)];
    if ops == [] {
      InitSnoc(past, OpDelete(i, io, now));
      assert deleted + ops == deleted;
      EveryHistory(past);
    } else {
      DeletedForGood(past, i, io, now, Init(ops));
      ConcatSnoc(deleted, Init(ops), Last(ops));
      assert Init(ops) + [Last(ops)] == ops;
      InitSnoc(deleted + Init(ops), Last(ops));
      EveryHistory(deleted + Init(ops));
      RowAfter(Run(EMPTY, deleted + Init(ops)), Last(ops), i);
    }
    EveryHistory(deleted + ops);
    NothingIsRoutedToTheGone(deleted + ops);
  }

  // ---------------------------------------------------------------------------------------------
  // Who is running
  // ---------------------------------------------------------------------------------------------

  /** The update has something to send. */
  predicate Sends(s: Store, i: int, c: Change) {
    c.relabels || c.selections.Some? || (c.settings.Some? && i in s.rows)
  }

  /** Instance i runs after the request: an operation on i decides by whether its app comes up, a stop or a delete takes
      it down, the reviver brings up what is dead, unpaused and past the grace period, and a restart of the process
      takes all down. */
  ghost predicate RunsAfter(s: Store, op: Op, i: int) {
    match op
    case OpCreate(_, _, io) => i in s.running || (i == s.nextId && io.write && io.starts)
    case OpUpdate(j, c, io, _) => if i == j && Sends(s, j, c) then i in s.rows && io.starts else i in s.running
    case OpStart(j, io, _) => if i == j then i in s.rows && io.starts else i in s.running
    case OpDelete(j, _, _) => i in s.running && i != j
    case OpStop(j, _) => i in s.running && i != j
    case OpRevive(ids, now, grace, starts, _) =>
      || i in s.running
      || (i in ids && i in s.rows && !s.rows[i].isPaused && starts(i) && (i in s.stoppedAt ==> now - s.stoppedAt[i] >= grace))
    case OpRestart => false
    case _ => i in s.running
  }

  function StopMark(s: Store, i: int): Option<real> {
    if i in s.stoppedAt then Some(s.stoppedAt[i]) else None
  }

  /** When the request takes its time, for those that can stop an instance. */
  predicate Stops(op: Op) { op.OpUpdate? || op.OpStart? || op.OpDelete? || op.OpStop? }

  lemma StartRuns(s: Store, j: int, io: Io)
    ensures Start(s, j, io).running == s.running + if j in s.rows && io.starts then {j} else {}
    ensures Start(s, j, io).stoppedAt == s.stoppedAt - if j in s.rows && io.starts then {j} else {}
  {
  }

  lemma StopRuns(s: Store, j: int, now: real, i: int)
    ensures i in Stop(s, j, now).running <==> i in s.running && i != j
    ensures StopMark(Stop(s, j, now), i) == if i == j && i in s.running then Some(now) else StopMark(s, i)
  {
  }

  lemma UpdateRuns(s: Store, j: int, c: Change, io: Io, now: real, i: int)
    requires Sends(s, j, c)
    ensures Update(s, j, c, io, now).running == Start(Stop(s, j, now), j, io).running
    ensures Update(s, j, c, io, now).stoppedAt == Start(Stop(s, j, now), j, io).stoppedAt
  {
    var stopped := Stop(s, j, now);
    if io.write {
      var patched := if j in s.rows then stopped.(rows := s.rows[j := Changed(s.rows[j], c)]) else stopped;
      StartRuns(Rebuild(patched, j, io), j, io);
      StartRuns(stopped, j, io);
    }
  }

  /** One request decides who runs and who counts as recently stopped: the mark of an instance is the time of the
      request that took it down, it is gone while the instance runs, and the process forgets all marks. */
  lemma WhoRuns(s: Store, op: Op, i: int)
    requires Invariant(s)
    ensures i in Apply(s, op).running <==> RunsAfter(s, op, i)
    ensures StopMark(Apply(s, op), i) ==
            if RunsAfter(s, op, i) || op.OpRestart? then None
            else if i in s.running && Stops(op) then Some(op.now)
            else StopMark(s, i)
  {
    match op
    case OpCreate(sel, button, io) =>
      if io.write {
        var inserted := s.(rows := s.rows[s.nextId := Row(sel, button, false, None)], nextId := s.nextId + 1);
        StartRuns(Insert(inserted, s.nextId, io), s.nextId, io);
      }
    case OpUpdate(j, c, io, now) =>
      if Sends(s, j, c) {
        UpdateRuns(s, j, c, io, now, i);
        StopRuns(s, j, now, i);
        StartRuns(Stop(s, j, now), j, io);
      }
    case OpStart(j, io, now) =>
      StopRuns(s, j, now, i);
      StartRuns(Stop(s, j, now), j, io);
    case OpRevive(ids, now, grace, starts, io) => RevivesExactlyTheDead(s, ids, now, grace, starts, io);
    case OpDelete(j, io, now) => StopRuns(s, j, now, i);
    case OpStop(j, now) => StopRuns(s, j, now, i);
    case _ =>
  }

  /** An update that has nothing to send changes nothing at all; any other takes the instance through a stop. */
  lemma UpdateWithNothingToSend(s: Store, i: int, c: Change, io: Io, now: real)
    ensures !Sends(s, i, c) ==> Update(s, i, c, io, now) == s
  {
  }

  /** The requests leave instance i alone, but for pausing and resuming it and for reviver rounds that come within the
      grace period of this stop. */
  ghost predicate LeaveItStopped(op: Op, i: int, stoppedAt: real) {
    match op
    case OpUpdate(j, _, _, _) => j != i
    case OpStart(j, _, _) => j != i
    case OpDelete(j, _, _) => j != i
    case OpStop(j, _) => j != i
    case OpRevive(_, now, grace, _, _) => now - stoppedAt < grace
    case OpRestart => false
    case _ => true
  }

  /** The instance has a row and is down since this time. */
  ghost predicate DownSince(s: Store, i: int, at: real) {
    i in s.rows && i !in s.running && StopMark(s, i) == Some(at)
  }

  lemma StaysDown(s: Store, op: Op, i: int, at: real)
    requires Invariant(s) && DownSince(s, i, at) && LeaveItStopped(op, i, at)
    ensures DownSince(Apply(s, op), i, at)
  {
    RowAfter(s, op, i);
    WhoRuns(s, op, i);
  }

  lemma {:induction false} StoppedStaysDown(past: seq<Op>, i: int, at: real, ops: seq<Op>)
    requires i in Run(EMPTY, past).running
    requires forall k :: 0 <= k < |ops| ==> LeaveItStopped(ops[k], i, at)
    ensures DownSince(Run(EMPTY, past + [OpStop(i, at)] + ops), i, at)
  {
    var stopped := past + [OpStop(i, at)];
    if ops == [] {
      InitSnoc(past, OpStop(i, at));
      assert stopped + ops == stopped;
      EveryHistory(past);
    } else {
      assert forall k :: 0 <= k < |ops| - 1 ==> Init(ops)[k] == ops[k];
      StoppedStaysDown(past, i, at, Init(ops));
      ConcatSnoc(stopped, Init(ops), Last(ops));
      assert Init(ops) + [Last(ops)] == ops;
      InitSnoc(stopped + Init(ops), Last(ops));
      EveryHistory(stopped + Init(ops));
      StaysDown(Run(EMPTY, stopped + Init(ops)), Last(ops), i, at);
    }
  }

  /** A stop lasts: a running instance that is stopped at some time stays down through anything that is not about it
      and through every reviver round within the grace period; the first round past that brings it up when its row is
      unpaused and its app starts. */
  lemma StoppedStaysDownForGrace(past: seq<Op>, i: int, at: real, ops: seq<Op>,
                                 ids: seq<int>, now: real, grace: real, starts: int -> bool, io: Io)
    requires i in Run(EMPTY, past).running
    requires forall k :: 0 <= k < |ops| ==> LeaveItStopped(ops[k], i, at)
    requires i in ids && now - at >= grace
    ensures var s := Run(EMPTY, past + [OpStop(i, at)] + ops);
            && i in s.rows && i !in s.running
            && (i in Revive(s, ids, now, grace, starts, io).running <==> !s.rows[i].isPaused && starts(i))
  {
    StoppedStaysDown(past, i, at, ops);
    RevivesExactlyTheDead(Run(EMPTY, past + [OpStop(i, at)] + ops), ids, now, grace, starts, io);
  }

  // ---------------------------------------------------------------------------------------------
  // Pauses of a running instance
  // ---------------------------------------------------------------------------------------------

  /** A running instance that is paused for a time expires whole minutes after the app's own write of it, or after the
      manager's where that is lost, and gets a job that ends it, due less than a minute past the time asked for. */
  lemma PauseSchedulesItsEnd(past: seq<Op>, i: int, seconds: int, t0: real, appAt: Option<real>, jobAt: real, io: Io)
    requires seconds > 0 && io.write && i in Run(EMPTY, past).running
    ensures var s := Pause(Run(EMPTY, past), i, PauseMinutes(seconds), t0, appAt, jobAt, io);
            && i in s.rows && s.rows[i].isPaused && i in s.jobs && i in s.running
            && s.rows[i].pauseExpiresAt ==
               Some((if appAt.Some? then appAt.value else t0) + 60.0 * PauseMinutes(seconds) as real)
            && jobAt + seconds as real <= s.jobs[i] < jobAt + seconds as real + 60.0
  {
    EveryHistory(past);
    PauseMinutesRoundUp(seconds);
    MinutesInSeconds(seconds, PauseMinutes(seconds));
  }

  lemma MinutesInSeconds(seconds: int, minutes: int)
    requires seconds <= 60 * minutes <= seconds + 59
    ensures seconds as real <= 60.0 * minutes as real < seconds as real + 60.0
  {
    assert (60 * minutes) as real == 60.0 * minutes as real;
  }

  /** Once the job has fired, or the instance has been resumed, nothing of the pause is left. */
  lemma FiringEndsThePause(s: Store, i: int, now: real, io: Io)
    requires Invariant(s) && i in s.running && io.write
    ensures Unpaused(Resume(s, i, io), i)
    ensures i in s.jobs && now >= s.jobs[i] ==> Unpaused(Fire(s, i, now, io), i)
  {
    ResumedIsUnpaused(s, i, io);
    ResumedIsUnpaused(s.(jobs := s.jobs - {i}), i, io);
  }

  lemma ResumedIsUnpaused(s: Store, i: int, io: Io)
    requires i in s.rows && i in s.running && io.write
    ensures Unpaused(Resume(s, i, io), i)
  {
  }

  /** Nothing of a pause is left on the row, and no job is pending. */
  ghost predicate Unpaused(s: Store, i: int) {
    i in s.rows && !s.rows[i].isPaused && s.rows[i].pauseExpiresAt.None? && i !in s.jobs
  }

  /** A request whose row write fails leaves every row as it was. */
  lemma FailedWriteKeepsRows(s: Store, op: Op)
    requires op.OpCreate? || op.OpUpdate? || op.OpDelete? || op.OpPause? || op.OpResume? || op.OpFire?
    requires !op.io.write
    ensures Apply(s, op).rows == s.rows
  {
    if op.OpUpdate? {
      UpdatedRows(s, op.id, op.change, op.io, op.now);
    }
  }
}
