/**
  Removal of our fabrics from a Matter device: decommission_node of services/matter_debug.py, purge_node
  of scripts/matter_legacy_orphan_purge.py, and the self-clean after a commission in app.py.

  The device side is the RemoveFabric command of the Node Operational Credentials cluster, section 11.18
  of the Matter Core Specification 1.3: only an administrator may invoke it, and we are one only as long
  as the fabric our session runs on is in the device's table.
  */
module Fabrics {
  import opened Prelude

  const OUR_VENDOR_ID := 65521

  datatype Fabric = Fabric(index: int, vendor: int) {
    predicate Ours() { vendor == OUR_VENDOR_ID }
  }

  /** The fabric table of a device and the index of the fabric our session runs on. */
  datatype Device = Device(table: seq<Fabric>, session: int)

  /** The table has an entry with this index. */
  predicate Has(table: seq<Fabric>, index: int) {
    table != [] && (Last(table).index == index || Has(Init(table), index))
  }

  function Dropped(table: seq<Fabric>, index: int): seq<Fabric> {
    if table == [] then []
    else if Last(table).index == index then Dropped(Init(table), index)
    else Dropped(Init(table), index) + [Last(table)]
  }

  /** What becomes of one command: it arrives, or is lost on the way there, or its answer is lost. */
  datatype Link = Delivered | LostBefore | LostAfter

  predicate Admin(d: Device) {
    Has(d.table, d.session)
  }

  function AfterRemove(d: Device, index: int, link: Link): Device {
    if link.LostBefore? || !Admin(d) then d else d.(table := Dropped(d.table, index))
  }

  /** The controller sees a normal return: the command arrived, was accepted, and the answer came back. */
  predicate Returns(d: Device, link: Link) {
    link.Delivered? && Admin(d)
  }

  // ---------------------------------------------------------------------------------------------
  // Targets in order
  // ---------------------------------------------------------------------------------------------

  /** Our entries whose flag "is current" has the given value; an unread current index flags none. */
  function OursBy(table: seq<Fabric>, current: Option<int>, isCurrent: bool): seq<int> {
    if table == [] then []
    else if Last(table).Ours() && (current == Some(Last(table).index)) == isCurrent
    then OursBy(Init(table), current, isCurrent) + [Last(table).index]
    else OursBy(Init(table), current, isCurrent)
  }

  /** Indices to remove: our orphans, then, unless it is kept, the entry believed to be current. */
  function Targets(table: seq<Fabric>, current: Option<int>, keepCurrent: bool): seq<int> {
    OursBy(table, current, false) + if keepCurrent then [] else OursBy(table, current, true)
  }

  datatype Report = Report(removed: seq<int>, errors: seq<int>)

  datatype Outcome = Outcome(device: Device, report: Report)

  /** Try the targets in order; link(i) is what becomes of the command for index i. */
  function RemoveAll(d: Device, targets: seq<int>, link: int -> Link): Outcome {
    if targets == [] then Outcome(d, Report([], []))
    else
      var o, i := RemoveAll(d, Init(targets), link), Last(targets);
      Outcome(
        AfterRemove(o.device, i, link(i)),
        if Returns(o.device, link(i)) then o.report.(removed := o.report.removed + [i])
        else o.report.(errors := o.report.errors + [i]))
  }

  /** Removal of what a reading of the fabric table lists as ours; the reading may be out of date. */
  function RemoveListed(d: Device, listed: seq<Fabric>, current: Option<int>, keepCurrent: bool, link: int -> Link): Outcome {
    RemoveAll(d, Targets(listed, current, keepCurrent), link)
  }

  /** The same with the device's own table read. */
  function Decommission(d: Device, current: Option<int>, keepCurrent: bool, link: int -> Link): Outcome {
    RemoveListed(d, d.table, current, keepCurrent, link)
  }

  // ---------------------------------------------------------------------------------------------
  // What a removal leaves, said without the loop
  // ---------------------------------------------------------------------------------------------

  /** Fabric indices are unique on a device. */
  predicate Unique(table: seq<Fabric>) {
    table == [] || (!Has(Init(table), Last(table).index) && Unique(Init(table)))
  }

  /** The table without the entries whose index is in gone. */
  function Minus(table: seq<Fabric>, gone: set<int>): seq<Fabric> {
    if table == [] then []
    else if Last(table).index in gone then Minus(Init(table), gone)
    else Minus(Init(table), gone) + [Last(table)]
  }

  function Foreign(table: seq<Fabric>): seq<Fabric> {
    if table == [] then []
    else if Last(table).Ours() then Foreign(Init(table))
    else Foreign(Init(table)) + [Last(table)]
  }

  /** The targets whose command reached the device. */
  ghost function Reached(targets: seq<int>, link: int -> Link): set<int> {
    set i | i in targets && !link(i).LostBefore?
  }

  lemma {:induction false} MinusStep(table: seq<Fabric>, gone: set<int>, index: int)
    ensures Dropped(Minus(table, gone), index) == Minus(table, gone + {index})
  {
    if table != [] {
      MinusStep(Init(table), gone, index);
      InitSnoc(Minus(Init(table), gone), Last(table));
    }
  }

  lemma {:induction false} MinusNothing(table: seq<Fabric>)
    ensures Minus(table, {}) == table
  {
    if table != [] {
      MinusNothing(Init(table));
      assert Init(table) + [Last(table)] == table;
    }
  }

  lemma {:induction false} MinusHas(table: seq<Fabric>, gone: set<int>, i: int)
    ensures Has(Minus(table, gone), i) <==> Has(table, i) && i !in gone
  {
    if table != [] {
      MinusHas(Init(table), gone, i);
      InitSnoc(Minus(Init(table), gone), Last(table));
    }
  }

  lemma {:induction false} UniqueMinus(table: seq<Fabric>, gone: set<int>)
    requires Unique(table)
    ensures Unique(Minus(table, gone))
  {
    if table != [] {
      UniqueMinus(Init(table), gone);
      MinusHas(Init(table), gone, Last(table).index);
      InitSnoc(Minus(Init(table), gone), Last(table));
    }
  }

  /** One more command, sent while we still are an administrator. */
  lemma CommandTakesEffect(d: Device, targets: seq<int>, link: int -> Link, now: Device)
    requires targets != []
    requires now == Device(Minus(d.table, Reached(Init(targets), link)), d.session) && Admin(now)
    ensures AfterRemove(now, Last(targets), link(Last(targets))) ==
              Device(Minus(d.table, Reached(targets, link)), d.session)
  {
    var prev, i := Init(targets), Last(targets);
    assert forall t :: t in targets <==> t in prev || t == i;
    if link(i).LostBefore? {
      assert Reached(targets, link) == Reached(prev, link);
    } else {
      assert Reached(targets, link) == Reached(prev, link) + {i};
      MinusStep(d.table, Reached(prev, link), i);
    }
  }

  /** The reports of commands sent while we are an administrator tell which ones were answered. */
  ghost predicate Answered(r: Report, targets: seq<int>, link: int -> Link) {
    && (forall i :: i in r.removed <==> i in targets && link(i).Delivered?)
    && (forall i :: i in r.errors <==> i in targets && !link(i).Delivered?)
  }

  lemma AnsweredStep(r: Report, targets: seq<int>, link: int -> Link)
    requires targets != [] && Answered(r, Init(targets), link)
    ensures Answered(if link(Last(targets)).Delivered? then r.(removed := r.removed + [Last(targets)])
                     else r.(errors := r.errors + [Last(targets)]), targets, link)
  {
    assert forall t :: t in targets <==> t in Init(targets) || t == Last(targets);
  }

  lemma {:induction false} EveryReachedCommandWorks(d: Device, targets: seq<int>, link: int -> Link)
    requires Admin(d) && d.session !in targets
    ensures RemoveAll(d, targets, link).device == Device(Minus(d.table, Reached(targets, link)), d.session)
    ensures Admin(RemoveAll(d, targets, link).device)
    ensures Answered(RemoveAll(d, targets, link).report, targets, link)
  {
    if targets == [] {
      MinusNothing(d.table);
      assert Reached(targets, link) == {};
    } else {
      assert forall t :: t in Init(targets) ==> t in targets;
      EveryReachedCommandWorks(d, Init(targets), link);
      CommandTakesEffect(d, targets, link, RemoveAll(d, Init(targets), link).device);
      AnsweredStep(RemoveAll(d, Init(targets), link).report, targets, link);
    }
    MinusHas(d.table, Reached(targets, link), d.session);
  }

  /** As long as the session's own fabric is tried last, if at all, every command that reaches the device
      takes effect: what is gone is exactly what was reached. */
  lemma RemovesWhatItReaches(d: Device, targets: seq<int>, link: int -> Link)
    requires Admin(d) && (targets == [] || d.session !in Init(targets))
    ensures RemoveAll(d, targets, link).device == Device(Minus(d.table, Reached(targets, link)), d.session)
    ensures Answered(RemoveAll(d, targets, link).report, targets, link)
  {
    if targets == [] {
      EveryReachedCommandWorks(d, targets, link);
    } else {
      EveryReachedCommandWorks(d, Init(targets), link);
      CommandTakesEffect(d, targets, link, RemoveAll(d, Init(targets), link).device);
      AnsweredStep(RemoveAll(d, Init(targets), link).report, targets, link);
    }
  }

  /** Under any losses the report splits the targets: each is in exactly one of the two lists. */
  lemma {:induction false} ReportSplitsTargets(d: Device, targets: seq<int>, link: int -> Link)
    ensures var r := RemoveAll(d, targets, link).report;
            multiset(r.removed) + multiset(r.errors) == multiset(targets)
  {
    if targets != [] {
      var before, i := RemoveAll(d, Init(targets), link), Last(targets);
      ReportSplitsTargets(d, Init(targets), link);
      assert targets == Init(targets) + [i];
      MultisetSnoc(Init(targets), i);
      if Returns(before.device, link(i)) {
        MultisetSnoc(before.report.removed, i);
      } else {
        MultisetSnoc(before.report.errors, i);
      }
    }
  }

  /** Both lists of the report keep the order in which the targets were tried. */
  lemma {:induction false} ReportKeepsOrder(d: Device, targets: seq<int>, link: int -> Link)
    ensures InOrder(RemoveAll(d, targets, link).report.removed, targets)
    ensures InOrder(RemoveAll(d, targets, link).report.errors, targets)
  {
    if targets != [] {
      var before := RemoveAll(d, Init(targets), link).report;
      ReportKeepsOrder(d, Init(targets), link);
      InitSnoc(before.removed, Last(targets));
      InitSnoc(before.errors, Last(targets));
    }
  }

  lemma {:induction false} OursByElements(table: seq<Fabric>, current: Option<int>, isCurrent: bool, i: int)
    requires Unique(table)
    ensures i in OursBy(table, current, isCurrent) <==> (current == Some(i)) == isCurrent && OursAt(table, i)
  {
    if table != [] {
      OursByElements(Init(table), current, isCurrent, i);
    }
  }

  /** The table has an entry of ours with this index. */
  predicate OursAt(table: seq<Fabric>, i: int) {
    table != [] && ((Last(table).index == i && Last(table).Ours()) || OursAt(Init(table), i))
  }

  lemma {:induction false} CurrentIsOne(table: seq<Fabric>, i: int)
    requires Unique(table)
    ensures OursBy(table, Some(i), true) == if OursAt(table, i) then [i] else []
    ensures OursAt(table, i) ==> Has(table, i)
  {
    if table != [] {
      CurrentIsOne(Init(table), i);
    }
  }

  lemma TargetsElements(table: seq<Fabric>, current: Option<int>, keepCurrent: bool, i: int)
    requires Unique(table)
    ensures i in Targets(table, current, keepCurrent) <==> OursAt(table, i) && !(keepCurrent && current == Some(i))
  {
    OursByElements(table, current, false, i);
    OursByElements(table, current, true, i);
  }

  /** With the current index read correctly, our own session's fabric is the last target. */
  lemma SessionIsTriedLast(d: Device, keepCurrent: bool)
    requires Unique(d.table)
    ensures var ts := Targets(d.table, Some(d.session), keepCurrent);
            && (ts == [] || d.session !in Init(ts))
            && (keepCurrent ==> d.session !in ts)
  {
    var orphans := OursBy(d.table, Some(d.session), false);
    OursByElements(d.table, Some(d.session), false, d.session);
    CurrentIsOne(d.table, d.session);
    if OursAt(d.table, d.session) {
      InitSnoc(orphans, d.session);
    }
    assert orphans + [] == orphans;
    if orphans != [] {
      assert forall i :: i in Init(orphans) ==> i in orphans;
    }
  }

  /** Whatever is lost on the way, a decommission with the current index read correctly removes exactly
      the targets whose command reached the device, and reports as removed exactly those answered. */
  lemma DecommissionRemovesWhatItReaches(d: Device, keepCurrent: bool, link: int -> Link)
    requires Unique(d.table) && Admin(d)
    ensures var ts := Targets(d.table, Some(d.session), keepCurrent);
            var o := Decommission(d, Some(d.session), keepCurrent, link);
            && o.device == Device(Minus(d.table, Reached(ts, link)), d.session)
            && Answered(o.report, ts, link)
            && (keepCurrent ==> Admin(o.device))
  {
    SessionIsTriedLast(d, keepCurrent);
    var ts := Targets(d.table, Some(d.session), keepCurrent);
    RemovesWhatItReaches(d, ts, link);
    MinusHas(d.table, Reached(ts, link), d.session);
  }

  // ---------------------------------------------------------------------------------------------
  // Whatever index was read
  // ---------------------------------------------------------------------------------------------

  /** Our session's own fabric is among the targets, and its command arrives. */
  predicate GivesUpRights(session: int, targets: seq<int>, link: int -> Link) {
    session in targets && !link(session).LostBefore?
  }

  /** The targets tried while we are an administrator: all up to the first one that reached the device and
      was our session's own fabric. */
  function TriedWithRights(session: int, targets: seq<int>, link: int -> Link): seq<int> {
    if targets == [] then []
    else if GivesUpRights(session, Init(targets), link) then TriedWithRights(session, Init(targets), link)
    else TriedWithRights(session, Init(targets), link) + [Last(targets)]
  }

  lemma {:induction false} TriedIsAPrefix(session: int, targets: seq<int>, link: int -> Link)
    ensures var tried := TriedWithRights(session, targets, link);
            && tried <= targets
            && (session in tried <==> session in targets)
            && (tried != targets ==> session in tried && !link(session).LostBefore?)
            && (tried != [] && !link(session).LostBefore? ==> session !in Init(tried))
  {
    if targets != [] {
      TriedIsAPrefix(session, Init(targets), link);
      assert Init(targets) + [Last(targets)] == targets;
      InitSnoc(TriedWithRights(session, Init(targets), link), Last(targets));
    }
  }

  lemma TriedStep(session: int, targets: seq<int>, link: int -> Link)
    requires targets != [] && !GivesUpRights(session, Init(targets), link)
    ensures var tried := TriedWithRights(session, targets, link);
            tried != [] && Init(tried) == TriedWithRights(session, Init(targets), link) && Last(tried) == Last(targets)
  {
    InitSnoc(TriedWithRights(session, Init(targets), link), Last(targets));
  }

  lemma ReachedHasSession(session: int, targets: seq<int>, link: int -> Link)
    ensures session in Reached(TriedWithRights(session, targets, link), link) <==> GivesUpRights(session, targets, link)
  {
    TriedIsAPrefix(session, targets, link);
  }

  /** For any targets and losses, what is gone is exactly what was reached while we had our rights, and we
      keep them exactly when our session's own fabric was not reached. */
  lemma {:induction false} RemovesUntilSessionGoes(d: Device, targets: seq<int>, link: int -> Link)
    requires Admin(d)
    ensures RemoveAll(d, targets, link).device ==
            Device(Minus(d.table, Reached(TriedWithRights(d.session, targets, link), link)), d.session)
    ensures Admin(RemoveAll(d, targets, link).device) <==> !GivesUpRights(d.session, targets, link)
  {
    var tried := TriedWithRights(d.session, targets, link);
    if targets == [] {
      MinusNothing(d.table);
      assert Reached(tried, link) == {};
    } else {
      RemovesUntilSessionGoes(d, Init(targets), link);
      if !GivesUpRights(d.session, Init(targets), link) {
        TriedStep(d.session, targets, link);
        CommandTakesEffect(d, tried, link, RemoveAll(d, Init(targets), link).device);
      }
    }
    ReachedHasSession(d.session, targets, link);
    MinusHas(d.table, Reached(tried, link), d.session);
  }

  /** Reported removed is exactly what was answered while we had our rights. */
  lemma {:induction false} ReportsUntilSessionGoes(d: Device, targets: seq<int>, link: int -> Link, i: int)
    requires Admin(d)
    ensures i in RemoveAll(d, targets, link).report.removed <==>
            i in TriedWithRights(d.session, targets, link) && link(i).Delivered?
  {
    if targets != [] {
      ReportsUntilSessionGoes(d, Init(targets), link, i);
      RemovesUntilSessionGoes(d, Init(targets), link);
      if !GivesUpRights(d.session, Init(targets), link) {
        TriedStep(d.session, targets, link);
        var tried := TriedWithRights(d.session, targets, link);
        assert tried == Init(tried) + [Last(tried)];
      }
    }
  }

  /** Keeping the current fabric keeps our rights exactly when the index read is our session's: any other
      reading of it, or none, puts our own fabric among the orphans, and without loss it goes. */
  lemma KeepCurrentKeepsRightsExactlyWhenRead(d: Device, current: Option<int>, link: int -> Link)
    requires Unique(d.table) && OursAt(d.table, d.session) && !link(d.session).LostBefore?
    ensures Admin(Decommission(d, current, true, link).device) <==> current == Some(d.session)
  {
    OursHas(d.table, d.session);
    TargetsElements(d.table, current, true, d.session);
    RemovesUntilSessionGoes(d, Targets(d.table, current, true), link);
  }

  // ---------------------------------------------------------------------------------------------
  // Removals without losses
  // ---------------------------------------------------------------------------------------------

  /** What a decommission is for: nothing of ours, or nothing of ours but the session's own fabric. */
  function Cleaned(table: seq<Fabric>, keep: Option<int>): seq<Fabric> {
    if table == [] then []
    else if Last(table).Ours() && keep != Some(Last(table).index) then Cleaned(Init(table), keep)
    else Cleaned(Init(table), keep) + [Last(table)]
  }

  lemma {:induction false} MinusIsCleaned(table: seq<Fabric>, gone: set<int>, keep: Option<int>)
    requires Unique(table)
    requires forall i :: Has(table, i) ==> (i in gone <==> OursAt(table, i) && keep != Some(i))
    ensures Minus(table, gone) == Cleaned(table, keep)
  {
    if table != [] {
      var rest := Init(table);
      forall i | Has(rest, i) ensures i in gone <==> OursAt(rest, i) && keep != Some(i) {
        assert Has(table, i);
      }
      MinusIsCleaned(rest, gone, keep);
      assert Has(table, Last(table).index);
      OursHas(rest, Last(table).index);
    }
  }

  lemma {:induction false} OursHas(table: seq<Fabric>, i: int)
    ensures OursAt(table, i) ==> Has(table, i)
  {
    if table != [] {
      OursHas(Init(table), i);
    }
  }

  /** With no loss a decommission removes every fabric of ours and no other; when asked to keep the
      current one, every fabric of ours but that one and no other. */
  lemma DecommissionCleans(d: Device, keepCurrent: bool, link: int -> Link)
    requires Unique(d.table) && Admin(d)
    requires forall i :: link(i) == Delivered
    ensures Decommission(d, Some(d.session), keepCurrent, link).device.table ==
              Cleaned(d.table, if keepCurrent then Some(d.session) else None)
    ensures forall i :: i !in Decommission(d, Some(d.session), keepCurrent, link).report.errors
  {
    var ts := Targets(d.table, Some(d.session), keepCurrent);
    DecommissionRemovesWhatItReaches(d, keepCurrent, link);
    forall i ensures i in Reached(ts, link) <==> OursAt(d.table, i) && !(keepCurrent && d.session == i) {
      TargetsElements(d.table, Some(d.session), keepCurrent, i);
    }
    MinusIsCleaned(d.table, Reached(ts, link), if keepCurrent then Some(d.session) else None);
  }

  lemma {:induction false} CleanedByVendor(table: seq<Fabric>, keep: Option<int>)
    ensures InOrder(Cleaned(table, keep), table)
    ensures forall f :: f in Cleaned(table, keep) <==> f in table && (f.vendor != 65521 || keep == Some(f.index))
  {
    if table != [] {
      CleanedByVendor(Init(table), keep);
      InitSnoc(Cleaned(Init(table), keep), Last(table));
      assert forall f :: f in table <==> f in Init(table) || f == Last(table);
    }
  }

  /** What a decommission without loss leaves, by vendor id: in table order, exactly the entries of other vendors than
      65521 and, when asked to keep it, the session's own. */
  lemma DecommissionLeavesByVendor(d: Device, keepCurrent: bool, link: int -> Link)
    requires Unique(d.table) && Admin(d)
    requires forall i :: link(i) == Delivered
    ensures var left := Decommission(d, Some(d.session), keepCurrent, link).device.table;
            && InOrder(left, d.table)
            && forall f :: f in left <==> f in d.table && (f.vendor != 65521 || (keepCurrent && f.index == d.session))
  {
    DecommissionCleans(d, keepCurrent, link);
    CleanedByVendor(d.table, if keepCurrent then Some(d.session) else None);
  }

  lemma {:induction false} ForeignByVendor(table: seq<Fabric>)
    ensures InOrder(Foreign(table), table)
    ensures forall f :: f in Foreign(table) <==> f in table && f.vendor != 65521
  {
    if table != [] {
      ForeignByVendor(Init(table));
      InitSnoc(Foreign(Init(table)), Last(table));
      assert forall f :: f in table <==> f in Init(table) || f == Last(table);
    }
  }

  /** The targets whose command really took effect. */
  function Gone(d: Device, targets: seq<int>, link: int -> Link): set<int> {
    if targets == [] then {}
    else if link(Last(targets)).LostBefore? || !Admin(RemoveAll(d, Init(targets), link).device)
    then Gone(d, Init(targets), link)
    else Gone(d, Init(targets), link) + {Last(targets)}
  }

  lemma {:induction false} TableIsMinusGone(d: Device, targets: seq<int>, link: int -> Link)
    ensures RemoveAll(d, targets, link).device == Device(Minus(d.table, Gone(d, targets, link)), d.session)
    ensures forall i :: i in Gone(d, targets, link) ==> i in targets
  {
    if targets == [] {
      MinusNothing(d.table);
    } else {
      TableIsMinusGone(d, Init(targets), link);
      assert forall i :: i in Init(targets) ==> i in targets;
      MinusStep(d.table, Gone(d, Init(targets), link), Last(targets));
    }
  }

  lemma {:induction false} ForeignOfMinus(table: seq<Fabric>, gone: set<int>)
    ensures Foreign(Minus(table, gone)) == Minus(Foreign(table), gone)
  {
    if table != [] {
      ForeignOfMinus(Init(table), gone);
      InitSnoc(Minus(Init(table), gone), Last(table));
      InitSnoc(Foreign(Init(table)), Last(table));
    }
  }

  lemma {:induction false} MinusIsWhole(table: seq<Fabric>, gone: set<int>)
    ensures |Minus(table, gone)| <= |table|
    ensures Minus(table, gone) == table <==> forall i :: i in gone ==> !Has(table, i)
  {
    if table != [] {
      var rest := Init(table);
      MinusIsWhole(rest, gone);
      assert rest + [Last(table)] == table;
      if Last(table).index in gone {
        assert Has(table, Last(table).index);
      } else {
        assert forall i :: i in gone ==> (Has(table, i) <==> Has(rest, i));
        InitSnoc(Minus(rest, gone), Last(table));
      }
    }
  }

  ghost predicate ForeignStay(d: Device, listed: seq<Fabric>, current: Option<int>, keepCurrent: bool, link: int -> Link) {
    Foreign(RemoveListed(d, listed, current, keepCurrent, link).device.table) == Foreign(d.table)
  }

  /** Entries of others stay exactly when no command that took effect carried an index of theirs. */
  lemma ForeignStayUnlessGone(d: Device, listed: seq<Fabric>, current: Option<int>, keepCurrent: bool, link: int -> Link)
    ensures ForeignStay(d, listed, current, keepCurrent, link) <==>
              forall i :: i in Gone(d, Targets(listed, current, keepCurrent), link) ==> !Has(Foreign(d.table), i)
  {
    var ts := Targets(listed, current, keepCurrent);
    TableIsMinusGone(d, ts, link);
    ForeignOfMinus(d.table, Gone(d, ts, link));
    MinusIsWhole(Foreign(d.table), Gone(d, ts, link));
  }

  /** Only the command for this index arrives. */
  function OnlyReaching(i: int): int -> Link {
    j => if j == i then Delivered else LostBefore
  }

  lemma {:induction false} LoneCommandWorks(d: Device, targets: seq<int>, i: int)
    requires Admin(d)
    ensures Gone(d, targets, OnlyReaching(i)) == if i in targets then {i} else {}
  {
    if targets != [] {
      var rest := Init(targets);
      LoneCommandWorks(d, rest, i);
      assert i in targets <==> i in rest || i == Last(targets);
      TableIsMinusGone(d, rest, OnlyReaching(i));
      MinusNothing(d.table);
    }
  }

  /** Whatever table was read, and however stale: entries of others stay whatever is lost exactly when no
      index to be removed belongs to one of them on the device. */
  lemma ForeignStayExactlyWhenNotListed(d: Device, listed: seq<Fabric>, current: Option<int>, keepCurrent: bool)
    requires Admin(d)
    ensures (forall link: int -> Link :: ForeignStay(d, listed, current, keepCurrent, link)) <==>
              forall i :: i in Targets(listed, current, keepCurrent) ==> !Has(Foreign(d.table), i)
  {
    var ts := Targets(listed, current, keepCurrent);
    if forall i :: i in ts ==> !Has(Foreign(d.table), i) {
      forall link: int -> Link ensures ForeignStay(d, listed, current, keepCurrent, link) {
        TableIsMinusGone(d, ts, link);
        ForeignStayUnlessGone(d, listed, current, keepCurrent, link);
      }
    }
    if forall link: int -> Link :: ForeignStay(d, listed, current, keepCurrent, link) {
      forall i | i in ts ensures !Has(Foreign(d.table), i) {
        LoneCommandWorks(d, ts, i);
        assert ForeignStay(d, listed, current, keepCurrent, OnlyReaching(i));
        ForeignStayUnlessGone(d, listed, current, keepCurrent, OnlyReaching(i));
      }
    }
  }

  lemma OneFabric(f: Fabric, i: int)
    ensures Unique([f]) && (Has([f], i) <==> i == f.index) && (OursAt([f], i) <==> i == f.index && f.Ours())
    ensures Foreign([f]) == if f.Ours() then [] else [f]
  {
    InitSnoc([], f);
    assert [] + [f] == [f];
  }

  /** A table of one fabric of ours and one more. */
  lemma TwoFabrics(first: Fabric, second: Fabric)
    requires first.Ours() && first.index != second.index
    ensures var table := [first] + [second];
            && Unique(table) && Has(table, first.index) && OursAt(table, first.index)
            && (OursAt(table, second.index) <==> second.Ours())
            && (Has(Foreign(table), second.index) <==> !second.Ours())
  {
    InitSnoc([first], second);
    OneFabric(first, first.index);
    OneFabric(first, second.index);
    OneFabric(second, second.index);
    assert Foreign([first]) + [second] == [second];
  }

  /** An index that was ours when the table was cached and is another's by now. */
  lemma StaleReadingRemovesAnothersFabric()
    ensures var d := Device([Fabric(1, OUR_VENDOR_ID)] + [Fabric(2, 4996)], 1);
            !ForeignStay(d, [Fabric(1, OUR_VENDOR_ID)] + [Fabric(2, OUR_VENDOR_ID)], Some(1), true, OnlyReaching(2))
  {
    var ours := Fabric(1, OUR_VENDOR_ID);
    var d := Device([ours] + [Fabric(2, 4996)], 1);
    var listed := [ours] + [Fabric(2, OUR_VENDOR_ID)];
    TwoFabrics(ours, Fabric(2, 4996));
    TwoFabrics(ours, Fabric(2, OUR_VENDOR_ID));
    TargetsElements(listed, Some(1), true, 2);
    LoneCommandWorks(d, Targets(listed, Some(1), true), 2);
    ForeignStayUnlessGone(d, listed, Some(1), true, OnlyReaching(2));
  }

  lemma {:induction false} ForeignAreNotOurs(table: seq<Fabric>, i: int)
    requires Unique(table) && OursAt(table, i)
    ensures !Has(Foreign(table), i)
  {
    ForeignOfForeign(Init(table));
    InitSnoc(Foreign(Init(table)), Last(table));
    OursHas(Init(table), i);
    if Last(table).index != i {
      ForeignAreNotOurs(Init(table), i);
    }
  }

  /** With the device's own table read, entries of others are never touched, whatever is lost and whatever
      current index was read. */
  lemma ForeignEntriesStay(d: Device, current: Option<int>, keepCurrent: bool, link: int -> Link)
    requires Unique(d.table)
    ensures Foreign(Decommission(d, current, keepCurrent, link).device.table) == Foreign(d.table)
  {
    var ts := Targets(d.table, current, keepCurrent);
    TableIsMinusGone(d, ts, link);
    forall i | i in Gone(d, ts, link) ensures !Has(Foreign(d.table), i) {
      TargetsElements(d.table, current, keepCurrent, i);
      ForeignAreNotOurs(d.table, i);
    }
    ForeignStayUnlessGone(d, d.table, current, keepCurrent, link);
  }

  /** By vendor id: an entry of another vendor than 65521 is there before exactly when it is there afterwards. */
  lemma OtherVendorsStay(d: Device, current: Option<int>, keepCurrent: bool, link: int -> Link, f: Fabric)
    requires Unique(d.table) && f.vendor != 65521
    ensures f in Decommission(d, current, keepCurrent, link).device.table <==> f in d.table
  {
    ForeignEntriesStay(d, current, keepCurrent, link);
    ForeignByVendor(d.table);
    ForeignByVendor(Decommission(d, current, keepCurrent, link).device.table);
  }

  // ---------------------------------------------------------------------------------------------
  // When the current index is not read, or not our session's
  // ---------------------------------------------------------------------------------------------

  lemma {:induction false} OursByDistinct(table: seq<Fabric>, current: Option<int>, isCurrent: bool)
    requires Unique(table)
    ensures NoDup(OursBy(table, current, isCurrent))
  {
    if table != [] {
      OursByDistinct(Init(table), current, isCurrent);
      OursByElements(Init(table), current, isCurrent, Last(table).index);
      OursHas(Init(table), Last(table).index);
    }
  }

  lemma TargetsDistinct(table: seq<Fabric>, current: Option<int>, keepCurrent: bool)
    requires Unique(table)
    ensures NoDup(Targets(table, current, keepCurrent))
  {
    var first, last := OursBy(table, current, false), OursBy(table, current, true);
    OursByDistinct(table, current, false);
    OursByDistinct(table, current, true);
    forall i | i in last ensures i !in first {
      OursByElements(table, current, false, i);
      OursByElements(table, current, true, i);
    }
    NoDupConcat(first, last);
    assert first + [] == first;
  }

  /** Without loss every target is tried with our rights if our own fabric comes last, and otherwise not the
      last one. */
  lemma TriesAllExactlyWhenSessionIsLast(session: int, targets: seq<int>, link: int -> Link)
    requires NoDup(targets) && session in targets && forall i :: link(i) == Delivered
    ensures if Last(targets) == session then TriedWithRights(session, targets, link) == targets
            else Last(targets) !in TriedWithRights(session, targets, link)
  {
    var tried := TriedWithRights(session, targets, link);
    TriedIsAPrefix(session, targets, link);
    assert targets[..|tried|] == tried;
    if Last(targets) in tried {
      assert |tried| == |targets|;
    }
  }

  lemma AllOfOursReached(table: seq<Fabric>, current: Option<int>, link: int -> Link)
    requires Unique(table) && forall i :: link(i) == Delivered
    ensures Minus(table, Reached(Targets(table, current, false), link)) == Cleaned(table, None)
  {
    var ts := Targets(table, current, false);
    forall i ensures i in Reached(ts, link) <==> OursAt(table, i) {
      TargetsElements(table, current, false, i);
    }
    MinusIsCleaned(table, Reached(ts, link), None);
  }

  /** A full removal without loss, with any index read as current or none, clears everything of ours exactly
      when our session's own fabric is the last target. */
  lemma ClearsExactlyWhenSessionIsLast(d: Device, current: Option<int>, link: int -> Link)
    requires Unique(d.table) && OursAt(d.table, d.session) && forall i :: link(i) == Delivered
    ensures Targets(d.table, current, false) != []
    ensures Decommission(d, current, false, link).device.table == Cleaned(d.table, None) <==>
              Last(Targets(d.table, current, false)) == d.session
  {
    var ts := Targets(d.table, current, false);
    TargetsDistinct(d.table, current, false);
    TargetsElements(d.table, current, false, d.session);
    OursHas(d.table, d.session);
    TriesAllExactlyWhenSessionIsLast(d.session, ts, link);
    RemovesUntilSessionGoes(d, ts, link);
    if Last(ts) == d.session {
      AllOfOursReached(d.table, current, link);
    } else {
      var last := Last(ts);
      TargetsElements(d.table, current, false, last);
      OursHas(d.table, last);
      MinusHas(d.table, Reached(TriedWithRights(d.session, ts, link), link), last);
      CleanedHasNoneOfOurs(d.table, last);
    }
  }

  /** The purge promises to remove our own entry last. It does not know which one that is when the current
      index cannot be read; then it tries ours in table order, so it clears everything of ours exactly when
      our own entry happens to be the last of ours in the table. */
  lemma UnreadIndexClearsExactlyWhenSessionIsLast(d: Device, link: int -> Link)
    requires Unique(d.table) && OursAt(d.table, d.session) && forall i :: link(i) == Delivered
    ensures OursBy(d.table, None, false) != []
    ensures Decommission(d, None, false, link).device.table == Cleaned(d.table, None) <==>
              Last(OursBy(d.table, None, false)) == d.session
  {
    ClearsExactlyWhenSessionIsLast(d, None, link);
    NoneIsCurrent(d.table);
    assert Targets(d.table, None, false) == OursBy(d.table, None, false);
  }

  lemma {:induction false} NoneIsCurrent(table: seq<Fabric>)
    ensures OursBy(table, None, true) == []
  {
    if table != [] {
      NoneIsCurrent(Init(table));
    }
  }

  /** The purge with the index unread leaves an orphan here: our own entry comes first in the table. */
  lemma UnreadIndexLeavesAnOrphan()
    ensures var d := Device([Fabric(1, OUR_VENDOR_ID)] + [Fabric(2, OUR_VENDOR_ID)], 1);
            Decommission(d, None, false, i => Delivered).device.table != Cleaned(d.table, None)
  {
    var mine, orphan := Fabric(1, OUR_VENDOR_ID), Fabric(2, OUR_VENDOR_ID);
    var table := [mine] + [orphan];
    TwoFabrics(mine, orphan);
    InitSnoc([mine], orphan);
    assert OursBy(table, None, false) == OursBy([mine], None, false) + [2];
    UnreadIndexClearsExactlyWhenSessionIsLast(Device(table, 1), i => Delivered);
  }

  lemma {:induction false} CleanedHasNoneOfOurs(table: seq<Fabric>, i: int)
    requires Unique(table) && OursAt(table, i)
    ensures !Has(Cleaned(table, None), i)
  {
    if Last(table).index == i {
      CleanedAddsNothing(Init(table), i);
      OursHas(Init(table), i);
    } else {
      CleanedHasNoneOfOurs(Init(table), i);
      InitSnoc(Cleaned(Init(table), None), Last(table));
    }
  }

  lemma {:induction false} CleanedAddsNothing(table: seq<Fabric>, i: int)
    requires !Has(table, i)
    ensures !Has(Cleaned(table, None), i)
  {
    if table != [] {
      CleanedAddsNothing(Init(table), i);
      InitSnoc(Cleaned(Init(table), None), Last(table));
    }
  }

  // ---------------------------------------------------------------------------------------------
  // Commissioning does not use up slots
  // ---------------------------------------------------------------------------------------------

  /** A successful commission adds a fabric of ours, and our session runs on it. */
  function Commissioned(d: Device, index: int): Device {
    Device(d.table + [Fabric(index, OUR_VENDOR_ID)], index)
  }

  /** Commission and self-clean, with the current index the self-clean read. */
  function CommissionAndClean(d: Device, index: int, current: Option<int>, link: int -> Link): Device {
    Decommission(Commissioned(d, index), current, true, link).device
  }

  /** One commission: the index the device gives our new fabric, what the self-clean reads as current, and
      what becomes of its commands. */
  datatype Commission = Commission(index: int, current: Option<int>, link: int -> Link)

  /** Commissioned over and over, each time under an index free at that moment; None when one was not. */
  function CommissionRun(d: Device, cs: seq<Commission>): Option<Device> {
    if cs == [] then Some(d)
    else
      var before, c := CommissionRun(d, Init(cs)), Last(cs);
      if before.None? || Has(before.value.table, c.index) then None
      else Some(CommissionAndClean(before.value, c.index, c.current, c.link))
  }

  lemma {:induction false} CleanedKeepsOne(table: seq<Fabric>, index: int)
    requires !Has(table, index)
    ensures Cleaned(table, Some(index)) == Foreign(table)
  {
    if table != [] {
      CleanedKeepsOne(Init(table), index);
    }
  }

  lemma {:induction false} ForeignOfForeign(table: seq<Fabric>)
    requires Unique(table)
    ensures Foreign(Foreign(table)) == Foreign(table) && Unique(Foreign(table))
    ensures forall i :: Has(Foreign(table), i) ==> Has(table, i)
  {
    if table != [] {
      ForeignOfForeign(Init(table));
      InitSnoc(Foreign(Init(table)), Last(table));
    }
  }

  /** The new fabric is ours and our session's, the others' fabrics are as before. */
  lemma CommissionAddsOurs(d: Device, index: int)
    requires Unique(d.table) && !Has(d.table, index)
    ensures var c := Commissioned(d, index);
            Unique(c.table) && OursAt(c.table, index) && Admin(c) && Foreign(c.table) == Foreign(d.table)
  {
    InitSnoc(d.table, Fabric(index, OUR_VENDOR_ID));
  }

  /** Commission followed by a self-clean without loss leaves the others' fabrics as they were and exactly one
      of ours, the new one, exactly when the self-clean reads the new fabric's index as current. */
  lemma CommissionLeavesOneOfOurs(d: Device, index: int, current: Option<int>, link: int -> Link)
    requires Unique(d.table) && !Has(d.table, index) && forall i :: link(i) == Delivered
    ensures CommissionAndClean(d, index, current, link).table == Foreign(d.table) + [Fabric(index, OUR_VENDOR_ID)] <==>
            current == Some(index)
    ensures Admin(CommissionAndClean(d, index, current, link)) <==> current == Some(index)
  {
    var c, f := Commissioned(d, index), Fabric(index, OUR_VENDOR_ID);
    CommissionAddsOurs(d, index);
    KeepCurrentKeepsRightsExactlyWhenRead(c, current, link);
    TableIsMinusGone(c, Targets(c.table, current, true), link);
    InitSnoc(Foreign(d.table), f);
    if current == Some(index) {
      InitSnoc(d.table, f);
      DecommissionCleans(c, true, link);
      CleanedKeepsOne(d.table, index);
    }
  }

  /** A self-clean that cannot read the current index takes the fabric just commissioned with it. */
  lemma UnreadIndexLosesTheNewFabric(d: Device, index: int)
    requires Unique(d.table) && !Has(d.table, index)
    ensures !Admin(CommissionAndClean(d, index, None, i => Delivered))
  {
    CommissionLeavesOneOfOurs(d, index, None, i => Delivered);
  }

  lemma CommissionKeepsForeign(d: Device, c: Commission)
    requires Unique(d.table) && !Has(d.table, c.index)
    ensures var t := CommissionAndClean(d, c.index, c.current, c.link).table;
            Unique(t) && Foreign(t) == Foreign(d.table)
  {
    var made := Commissioned(d, c.index);
    CommissionAddsOurs(d, c.index);
    ForeignEntriesStay(made, c.current, true, c.link);
    var ts := Targets(made.table, c.current, true);
    TableIsMinusGone(made, ts, c.link);
    UniqueMinus(made.table, Gone(made, ts, c.link));
  }

  lemma {:induction false} CommissionRunKeepsForeign(d: Device, cs: seq<Commission>)
    requires Unique(d.table)
    ensures CommissionRun(d, cs).Some? ==>
              var t := CommissionRun(d, cs).value.table; Unique(t) && Foreign(t) == Foreign(d.table)
  {
    if cs != [] {
      CommissionRunKeepsForeign(d, Init(cs));
      if CommissionRun(d, cs).Some? {
        CommissionKeepsForeign(CommissionRun(d, Init(cs)).value, Last(cs));
      }
    }
  }

  /** However often a device is commissioned, and whatever earlier self-cleans lost or misread: after one
      without loss it carries the others' fabrics and one of ours, and we control it, exactly when that last
      self-clean read the current index correctly. No slot is used up. */
  lemma RepeatedCommissionKeepsOneSlot(d: Device, cs: seq<Commission>)
    requires Unique(d.table) && cs != []
    ensures CommissionRun(d, cs).Some? && Lossless(Last(cs).link) ==>
              var r, last := CommissionRun(d, cs).value, Last(cs);
              && (r == Device(Foreign(d.table) + [Fabric(last.index, OUR_VENDOR_ID)], last.index) <==>
                  last.current == Some(last.index))
              && (Admin(r) <==> last.current == Some(last.index))
              && Foreign(r.table) == Foreign(d.table)
  {
    CommissionRunKeepsForeign(d, Init(cs));
    CommissionRunKeepsForeign(d, cs);
    if CommissionRun(d, cs).Some? && Lossless(Last(cs).link) {
      var before, last := CommissionRun(d, Init(cs)).value, Last(cs);
      CommissionLeavesOneOfOurs(before, last.index, last.current, last.link);
      var made := Commissioned(before, last.index);
      TableIsMinusGone(made, Targets(made.table, last.current, true), last.link);
    }
  }

  ghost predicate Lossless(link: int -> Link) {
    forall i :: link(i) == Delivered
  }

  // ---------------------------------------------------------------------------------------------
  // The two implementations
  // ---------------------------------------------------------------------------------------------

  class MatterDevice {
    var table: seq<Fabric>
    const session: int

    constructor (table: seq<Fabric>, session: int)
      ensures this.table == table && this.session == session
    {
      this.table := table;
      this.session := session;
    }

    ghost function Current(): Device
      reads this
    {
      Device(table, session)
    }

    method RemoveFabric(index: int, link: Link) returns (returned: bool)
      modifies this`table
      ensures Current() == AfterRemove(old(Current()), index, link)
      ensures returned <==> Returns(old(Current()), link)
    {
      if link.LostBefore? || !Has(table, session) {
        return false;
      }
      table := Dropped(table, index);
      return link.Delivered?;
    }
  }

  /** What reading the node's fabric table gave. */
  datatype Reading = NodeAbsent | Node(current: Option<int>, fabrics: seq<Fabric>)

  /** decommission_node. The reading is the controller's, cached or not. */
  method DecommissionNode(device: MatterDevice, reading: Reading, keepCurrent: bool, link: int -> Link) returns (r: Report)
    modifies device`table
    ensures reading.NodeAbsent? ==> device.table == old(device.table) && r == Report([], [])
    ensures reading.Node? ==>
              Outcome(device.Current(), r) ==
              RemoveListed(old(device.Current()), reading.fabrics, reading.current, keepCurrent, link)
  {
    if reading.NodeAbsent? {
      return Report([], []);
    }
    var targets := Targets(reading.fabrics, reading.current, keepCurrent);
    var removed, errors := [], [];
    for k := 0 to |targets|
      invariant Outcome(device.Current(), Report(removed, errors)) == RemoveAll(old(device.Current()), targets[..k], link)
    {
      assert Init(targets[..k + 1]) == targets[..k];
      var ok := device.RemoveFabric(targets[k], link(targets[k]));
      if ok {
        removed := removed + [targets[k]];
      } else {
        errors := errors + [targets[k]];
      }
    }
    assert targets[..|targets|] == targets;
    r := Report(removed, errors);
  }

  /** purge_node: our entries are partitioned off, the one believed to be the session's is moved to the end,
      then all are removed in that order. read is None when the entries could not be read. */
  method PurgeNode(device: MatterDevice, read: Option<seq<Fabric>>, currentIdx: Option<int>, dryRun: bool, link: int -> Link)
    returns (r: Report, kept: seq<Fabric>)
    modifies device`table
    ensures read.None? ==> device.table == old(device.table) && r == Report([], []) && kept == []
    ensures read.Some? ==> kept == Foreign(read.value)
    ensures read.Some? && dryRun ==>
              device.table == old(device.table) && r == Report(Targets(read.value, currentIdx, false), [])
    ensures read.Some? && !dryRun ==>
              Outcome(device.Current(), r) == RemoveListed(old(device.Current()), read.value, currentIdx, false, link)
  {
    if read.None? {
      return Report([], []), [];
    }
    var entries := read.value;
    var first, last := [], [];
    kept := [];
    for k := 0 to |entries|
      invariant kept == Foreign(entries[..k])
      invariant first == OursBy(entries[..k], currentIdx, false)
      invariant last == OursBy(entries[..k], currentIdx, true)
    {
      assert Init(entries[..k + 1]) == entries[..k];
      if !entries[k].Ours() {
        kept := kept + [entries[k]];
      } else if currentIdx == Some(entries[k].index) {
        last := last + [entries[k].index];
      } else {
        first := first + [entries[k].index];
      }
    }
    assert entries[..|entries|] == entries;
    var ours := first + last;
    if dryRun {
      return Report(ours, []), kept;
    }
    var removed, errors := [], [];
    for k := 0 to |ours|
      invariant Outcome(device.Current(), Report(removed, errors)) == RemoveAll(old(device.Current()), ours[..k], link)
    {
      assert Init(ours[..k + 1]) == ours[..k];
      var ok := device.RemoveFabric(ours[k], link(ours[k]));
      if ok {
        removed := removed + [ours[k]];
      } else {
        errors := errors + [ours[k]];
      }
    }
    assert ours[..|ours|] == ours;
    r := Report(removed, errors);
  }
}
