/**
  The device subscription table that services/instance_manager.py derives from the instance rows: which
  categories of a row listen to which events, how the list to insert is built, and what the table does
  with it.
  */
module Subscriptions {
  import opened Prelude

  /** One entry of a device selection: the canonical id it parses to, or text that is no number. */
  datatype Entry = Id(n: int) | NotNumeric(text: string)

  /** The category names the code maps to events, and all others. */
  datatype Category =
    | MotionSensors | Switches | Contacts | IlluminanceSensor | PauseButtons | KeepOffSwitches | KeepOnSwitches
    | ManualFanLevelOverrideSwitches | HumiditySensors | PresenceSensors | PowerSensors | TriggerButton
    | Unmapped(name: string)

  datatype Selection = Selection(category: Category, devices: seq<Entry>)

  datatype Sub = Sub(device: int, instance: int, event: string)

  const DEFAULT_BUTTON_EVENT := "held"

  /** The events a category subscribes to; output categories are deliberately not mapped, and a blank
      button event maps the pause buttons to nothing. */
  function CategoryEvents(category: Category, buttonEvent: string): seq<string> {
    match category
    case MotionSensors => ["motion"]
    case Switches => ["switch"]
    case Contacts => ["contact"]
    case IlluminanceSensor => ["illuminance"]
    case PauseButtons => if buttonEvent == "" then [] else [buttonEvent]
    case KeepOffSwitches => ["switch"]
    case KeepOnSwitches => ["switch"]
    case ManualFanLevelOverrideSwitches => ["switch"]
    case HumiditySensors => ["humidity"]
    case PresenceSensors => ["presence"]
    case PowerSensors => ["power"]
    case TriggerButton => ["pushed", "held", "doubleTapped"]
    case Unmapped(_) => []
  }

  /** Some selected category lists the device and is mapped to the event. */
  ghost predicate Selects(selections: seq<Selection>, buttonEvent: string, d: int, e: string) {
    exists k :: 0 <= k < |selections| && SelectsAt(selections[k], buttonEvent, d, e)
  }

  ghost predicate SelectsAt(s: Selection, buttonEvent: string, d: int, e: string) {
    Id(d) in s.devices && e in CategoryEvents(s.category, buttonEvent)
  }

  const SWITCH_INPUTS := {Switches, KeepOffSwitches, KeepOnSwitches, ManualFanLevelOverrideSwitches}

  /** The categories through which an event is heard, whatever the row's button event. */
  function Hearing(e: string): set<Category> {
    if e == "motion" then {MotionSensors}
    else if e == "switch" then SWITCH_INPUTS
    else if e == "contact" then {Contacts}
    else if e == "illuminance" then {IlluminanceSensor}
    else if e == "humidity" then {HumiditySensors}
    else if e == "presence" then {PresenceSensors}
    else if e == "power" then {PowerSensors}
    else if e == "pushed" || e == "held" || e == "doubleTapped" then {TriggerButton}
    else {}
  }

  /** The table read from the events' side: besides these categories only the pause buttons hear an event, the one
      chosen in the settings, and an output category hears none. */
  lemma HeardThrough(category: Category, buttonEvent: string, e: string)
    ensures e in CategoryEvents(category, buttonEvent) <==>
              category in Hearing(e) || (category == PauseButtons && e == buttonEvent != "")
    ensures (category.Unmapped? || (category == PauseButtons && buttonEvent == "")) <==>
              forall f :: f !in CategoryEvents(category, buttonEvent)
  {
    if CategoryEvents(category, buttonEvent) != [] {
      assert CategoryEvents(category, buttonEvent)[0] in CategoryEvents(category, buttonEvent);
    }
  }

  // ---------------------------------------------------------------------------------------------
  // The list to insert
  // ---------------------------------------------------------------------------------------------

  /** Append the elements not there yet: what both the builder and the table's unique constraint do. */
  function AddNew(table: seq<Sub>, more: seq<Sub>): seq<Sub> {
    if more == [] then table
    else
      var t := AddNew(table, Init(more));
      if Last(more) in t then t else t + [Last(more)]
  }

  function SubsOfDevice(instance: int, d: Entry, events: seq<string>): seq<Sub> {
    if d.NotNumeric? || events == [] then []
    else SubsOfDevice(instance, d, Init(events)) + [Sub(d.n, instance, Last(events))]
  }

  function SubsOfDevices(instance: int, ds: seq<Entry>, events: seq<string>): seq<Sub> {
    if ds == [] then [] else SubsOfDevices(instance, Init(ds), events) + SubsOfDevice(instance, Last(ds), events)
  }

  function SubsOfSelections(instance: int, selections: seq<Selection>, buttonEvent: string): seq<Sub> {
    if selections == [] then []
    else
      SubsOfSelections(instance, Init(selections), buttonEvent) +
      SubsOfDevices(instance, Last(selections).devices, CategoryEvents(Last(selections).category, buttonEvent))
  }

  /** The rows posted for one instance: every selected pair once, in selection order. */
  function Wanted(instance: int, selections: seq<Selection>, buttonEvent: string): seq<Sub> {
    AddNew([], SubsOfSelections(instance, selections, buttonEvent))
  }

  lemma {:induction false} AddNewConcat(table: seq<Sub>, a: seq<Sub>, b: seq<Sub>)
    ensures AddNew(table, a + b) == AddNew(AddNew(table, a), b)
  {
    if b == [] {
      assert a + b == a;
    } else {
      assert Init(a + b) == a + Init(b);
      AddNewConcat(table, a, Init(b));
    }
  }

  lemma {:induction false} AddNewElements(table: seq<Sub>, more: seq<Sub>)
    ensures forall s :: s in AddNew(table, more) <==> s in table || s in more
    ensures NoDup(table) ==> NoDup(AddNew(table, more))
  {
    if more != [] {
      AddNewElements(table, Init(more));
      assert forall s :: s in more <==> s in Init(more) || s == Last(more);
    }
  }

  lemma {:induction false} SubsOfDeviceElements(instance: int, d: Entry, events: seq<string>, s: Sub)
    ensures s in SubsOfDevice(instance, d, events) <==> d == Id(s.device) && s.instance == instance && s.event in events
  {
    if events != [] {
      SubsOfDeviceElements(instance, d, Init(events), s);
      assert s.event in events <==> s.event in Init(events) || s.event == Last(events);
    }
  }

  lemma {:induction false} SubsOfDevicesElements(instance: int, ds: seq<Entry>, events: seq<string>, s: Sub)
    ensures s in SubsOfDevices(instance, ds, events) <==> Id(s.device) in ds && s.instance == instance && s.event in events
  {
    if ds != [] {
      SubsOfDevicesElements(instance, Init(ds), events, s);
      SubsOfDeviceElements(instance, Last(ds), events, s);
      assert Id(s.device) in ds <==> Id(s.device) in Init(ds) || Id(s.device) == Last(ds);
    }
  }

  lemma SelectsLast(selections: seq<Selection>, buttonEvent: string, d: int, e: string)
    requires selections != []
    ensures Selects(selections, buttonEvent, d, e) <==>
              Selects(Init(selections), buttonEvent, d, e) || SelectsAt(Last(selections), buttonEvent, d, e)
  {
    if k :| 0 <= k < |Init(selections)| && SelectsAt(Init(selections)[k], buttonEvent, d, e) {
      assert SelectsAt(selections[k], buttonEvent, d, e);
    }
    if k :| 0 <= k < |selections| && SelectsAt(selections[k], buttonEvent, d, e) {
      assert k < |selections| - 1 ==> Init(selections)[k] == selections[k];
    }
  }

  lemma {:induction false} SubsOfSelectionsElements(instance: int, selections: seq<Selection>, buttonEvent: string, s: Sub)
    ensures s in SubsOfSelections(instance, selections, buttonEvent) <==>
              s.instance == instance && Selects(selections, buttonEvent, s.device, s.event)
  {
    if selections != [] {
      var last := Last(selections);
      SubsOfSelectionsElements(instance, Init(selections), buttonEvent, s);
      SubsOfDevicesElements(instance, last.devices, CategoryEvents(last.category, buttonEvent), s);
      SelectsLast(selections, buttonEvent, s.device, s.event);
    }
  }

  /** The list to insert holds exactly the selected pairs, each once. */
  lemma WantedIsSelected(instance: int, selections: seq<Selection>, buttonEvent: string)
    ensures NoDup(Wanted(instance, selections, buttonEvent))
    ensures forall s: Sub :: s in Wanted(instance, selections, buttonEvent) <==>
              s.instance == instance && Selects(selections, buttonEvent, s.device, s.event)
  {
    var all := SubsOfSelections(instance, selections, buttonEvent);
    AddNewElements([], all);
    forall s: Sub ensures s in all <==> s.instance == instance && Selects(selections, buttonEvent, s.device, s.event) {
      SubsOfSelectionsElements(instance, selections, buttonEvent, s);
    }
  }

  /** A device listed only under output categories is never subscribed, whatever the event. */
  lemma UnmappedIsNeverSubscribed(instance: int, selections: seq<Selection>, buttonEvent: string, s: Sub)
    requires forall k :: 0 <= k < |selections| && Id(s.device) in selections[k].devices ==>
               CategoryEvents(selections[k].category, buttonEvent) == []
    ensures s !in Wanted(instance, selections, buttonEvent)
  {
    WantedIsSelected(instance, selections, buttonEvent);
  }

  /** The nested loops that build the list. */
  method BuildSubscriptions(instance: int, selections: seq<Selection>, buttonEvent: string) returns (subs: seq<Sub>)
    ensures subs == Wanted(instance, selections, buttonEvent)
  {
    subs := [];
    for i := 0 to |selections|
      invariant subs == Wanted(instance, selections[..i], buttonEvent)
    {
      var events := CategoryEvents(selections[i].category, buttonEvent);
      var devices := selections[i].devices;
      ghost var before := subs;
      for j := 0 to |devices|
        invariant subs == AddNew(before, SubsOfDevices(instance, devices[..j], events))
      {
        ghost var earlier := subs;
        if devices[j].Id? {
          for k := 0 to |events|
            invariant subs == AddNew(earlier, SubsOfDevice(instance, devices[j], events[..k]))
          {
            assert Init(events[..k + 1]) == events[..k];
            var s := Sub(devices[j].n, instance, events[k]);
            AddNewConcat(earlier, SubsOfDevice(instance, devices[j], events[..k]), [s]);
            assert Init([s]) == [];
            if s !in subs {
              subs := subs + [s];
            }
          }
          assert events[..|events|] == events;
        }
        assert Init(devices[..j + 1]) == devices[..j];
        AddNewConcat(before, SubsOfDevices(instance, devices[..j], events), SubsOfDevice(instance, devices[j], events));
      }
      assert devices[..|devices|] == devices;
      assert Init(selections[..i + 1]) == selections[..i];
      AddNewConcat([], SubsOfSelections(instance, selections[..i], buttonEvent), SubsOfDevices(instance, devices, events));
    }
    assert selections[..|selections|] == selections;
  }

  // ---------------------------------------------------------------------------------------------
  // The table
  // ---------------------------------------------------------------------------------------------

  function Without(table: seq<Sub>, instance: int): seq<Sub> {
    if table == [] then []
    else Without(Init(table), instance) + if Last(table).instance == instance then [] else [Last(table)]
  }

  lemma {:induction false} WithoutElements(table: seq<Sub>, instance: int)
    ensures forall s :: s in Without(table, instance) <==> s in table && s.instance != instance
    ensures NoDup(table) ==> NoDup(Without(table, instance))
  {
    if table != [] {
      WithoutElements(Init(table), instance);
      assert table == Init(table) + [Last(table)];
      if NoDup(table) {
        assert NoDup(Init(table)) && Last(table) !in Init(table);
      }
    }
  }

  /** Instances subscribed to a device and event, in table order. */
  function Subscribed(table: seq<Sub>, d: int, e: string): seq<int> {
    if table == [] then []
    else
      Subscribed(Init(table), d, e) + if Last(table).device == d && Last(table).event == e then [Last(table).instance] else []
  }

  lemma {:induction false} SubscribedElements(table: seq<Sub>, d: int, e: string)
    ensures forall i :: i in Subscribed(table, d, e) <==> Sub(d, i, e) in table
    ensures NoDup(table) ==> NoDup(Subscribed(table, d, e))
  {
    if table != [] {
      SubscribedElements(Init(table), d, e);
      assert table == Init(table) + [Last(table)];
      if NoDup(table) {
        assert NoDup(Init(table)) && Last(table) !in Init(table);
      }
    }
  }
}
