/** Device classification across hubs: which of several natives sharing a label is the one commands go to,
    and which devices on other hubs mirror it (services/device_to_hubs_classifier.py). */
module HubClassifier {
  import opened Prelude
  import Text

  /** Stands in for a missing hub id when hubs are ranked. */
  const NO_HUB_ID := 1_000_000

  datatype HubConfig = HubConfig(name: string, ip: string, id: Option<int>, primary: bool)

  /** One line of a hub's roster; an empty `shown` means the device has no label of its own. */
  datatype RosterLine = RosterLine(id: string, shown: string, name: string, deviceType: string, linked: bool)

  /** One hub's roster as fetched; None when the fetch failed. */
  datatype Fetch = Fetch(hub: HubConfig, roster: Option<seq<RosterLine>>)

  datatype Device = Device(hub: HubConfig, id: string, name: string, deviceType: string)

  /** A native as the classifier carries it; the verdict is set in place once every hub is known. */
  class Entry {
    const device: Device
    var duplicate: bool

    constructor (device: Device)
      ensures this.device == device && !duplicate
    {
      this.device, duplicate := device, false;
    }
  }

  function KeyOf(name: string): string {
    Text.Lower(Text.Strip(name))
  }

  function HubId(hub: HubConfig): int {
    if hub.id.None? || hub.id.value == 0 then NO_HUB_ID else hub.id.value
  }

  predicate HasId(hub: HubConfig) { hub.id.Some? && hub.id.value != 0 }

  /** Hub a's id is no worse than hub b's: not greater, a hub without one counting as a million. */
  predicate NoWorseId(a: HubConfig, b: HubConfig) {
    if HasId(a) && HasId(b) then a.id.value <= b.id.value
    else if HasId(a) then a.id.value <= 1_000_000
    else if HasId(b) then b.id.value >= 1_000_000
    else true
  }

  /** The primary hub ranks before the others, then the smaller hub id. */
  predicate RanksBefore(a: HubConfig, b: HubConfig) {
    if a.primary != b.primary then a.primary else HubId(a) < HubId(b)
  }

  // ----- What a hub's roster yields -----

  function Described(hub: HubConfig, line: RosterLine): Device {
    Device(hub, line.id, Text.Strip(if line.shown != "" then line.shown else line.name), line.deviceType)
  }

  /** The natives (or the mesh-linked devices) of a roster, in roster order. */
  function Kept(hub: HubConfig, lines: seq<RosterLine>, linked: bool): (ds: seq<Device>)
    ensures forall i :: 0 <= i < |ds| ==> ds[i].hub == hub
  {
    if lines == [] then []
    else if Last(lines).linked == linked then Kept(hub, Init(lines), linked) + [Described(hub, Last(lines))]
    else Kept(hub, Init(lines), linked)
  }

  function NativesOf(f: Fetch): (ds: seq<Device>)
    ensures forall i :: 0 <= i < |ds| ==> ds[i].hub == f.hub
  {
    Kept(f.hub, f.roster.GetOr([]), false)
  }

  function LinkedOf(f: Fetch): (ds: seq<Device>)
    ensures forall i :: 0 <= i < |ds| ==> ds[i].hub == f.hub
  {
    Kept(f.hub, f.roster.GetOr([]), true)
  }

  function AllNatives(fetches: seq<Fetch>): seq<Device> {
    if fetches == [] then [] else AllNatives(Init(fetches)) + NativesOf(Last(fetches))
  }

  /** Labels share a key exactly when they agree but for blanks around them and the case of letters. */
  lemma LabelsAgreeExactlyWhen(a: string, b: string)
    ensures KeyOf(a) == KeyOf(b) <==> Text.SameKey(a, b)
    ensures KeyOf(a) == "" <==> forall i :: 0 <= i < |a| ==> a[i] in Text.BLANKS
  {
    Text.KeysAgreeExactlyWhen(a, b);
  }

  /** The text a roster line goes by: its own label, or the device's name where it has none. */
  function ShownText(line: RosterLine): string {
    if line.shown == "" then line.name else line.shown
  }

  /** The device is the one this line of the hub's roster is about, under its text without the blanks around it. */
  predicate IsAbout(d: Device, hub: HubConfig, line: RosterLine) {
    d.hub == hub && d.id == line.id && d.deviceType == line.deviceType && d.name == Text.Strip(ShownText(line))
  }

  function IsMarked(linked: bool): RosterLine -> bool {
    (line: RosterLine) => line.linked == linked
  }

  /** The devices are those of the lines at these positions. */
  ghost predicate AreAbout(ds: seq<Device>, hub: HubConfig, lines: seq<RosterLine>, qs: seq<int>) {
    |ds| == |qs| && forall p :: 0 <= p < |qs| ==> 0 <= qs[p] < |lines| && IsAbout(ds[p], hub, lines[qs[p]])
  }

  lemma {:induction false} KeptAt(hub: HubConfig, lines: seq<RosterLine>, linked: bool, p: nat)
    ensures |Kept(hub, lines, linked)| == |Positions(lines, IsMarked(linked))|
    ensures p < |Positions(lines, IsMarked(linked))| ==>
              var q := Positions(lines, IsMarked(linked))[p];
              0 <= q < |lines| && IsAbout(Kept(hub, lines, linked)[p], hub, lines[q])
  {
    if lines != [] {
      KeptAt(hub, Init(lines), linked, p);
    }
  }

  /** The natives (or the mesh-linked devices) are the devices of exactly the lines so marked, in roster order. */
  lemma KeptAreTheLinesMarked(hub: HubConfig, lines: seq<RosterLine>, linked: bool)
    ensures PositionsOf(lines, IsMarked(linked), Positions(lines, IsMarked(linked)))
    ensures AreAbout(Kept(hub, lines, linked), hub, lines, Positions(lines, IsMarked(linked)))
  {
    PositionsAre(lines, IsMarked(linked));
    forall p: nat
      ensures |Kept(hub, lines, linked)| == |Positions(lines, IsMarked(linked))|
      ensures p < |Positions(lines, IsMarked(linked))| ==>
                var q := Positions(lines, IsMarked(linked))[p];
                0 <= q < |lines| && IsAbout(Kept(hub, lines, linked)[p], hub, lines[q])
    {
      KeptAt(hub, lines, linked, p);
    }
  }

  ghost predicate Describes(es: seq<Entry>, ds: seq<Device>) {
    |es| == |ds| && forall i :: 0 <= i < |es| ==> es[i].device == ds[i]
  }

  // ----- Which native wins a label -----

  /** Native j takes the label they share from native i: its hub ranks first, or it was listed first on
      hubs that rank alike. */
  predicate Outranks(ds: seq<Device>, j: int, i: int)
    requires 0 <= i < |ds| && 0 <= j < |ds|
  {
    && KeyOf(ds[j].name) == KeyOf(ds[i].name)
    && (RanksBefore(ds[j].hub, ds[i].hub) || (!RanksBefore(ds[i].hub, ds[j].hub) && j < i))
  }

  /** Native i is a duplicate: its label is not blank and some other native outranks it. */
  ghost predicate Duplicate(ds: seq<Device>, i: int)
    requires 0 <= i < |ds|
  {
    KeyOf(ds[i].name) != "" && exists j :: 0 <= j < |ds| && Outranks(ds, j, i)
  }

  lemma OutranksIsAStrictOrder(ds: seq<Device>, a: int, b: int, c: int)
    requires 0 <= a < |ds| && 0 <= b < |ds| && 0 <= c < |ds|
    ensures !(Outranks(ds, a, b) && Outranks(ds, b, a))
    ensures Outranks(ds, a, b) && Outranks(ds, b, c) ==> Outranks(ds, a, c)
    ensures a != b && KeyOf(ds[a].name) == KeyOf(ds[b].name) ==> Outranks(ds, a, b) || Outranks(ds, b, a)
  {
  }

  /** w leads the natives before n that carry this key. */
  ghost predicate Leads(ds: seq<Device>, key: string, n: int, w: int)
    requires 0 <= n <= |ds|
  {
    && 0 <= w < n && KeyOf(ds[w].name) == key
    && forall i :: 0 <= i < n && i != w && KeyOf(ds[i].name) == key ==> Outranks(ds, w, i)
  }

  lemma {:induction false} SomeNativeLeads(ds: seq<Device>, key: string, n: int, i: int) returns (w: int)
    requires 0 <= i < n <= |ds| && KeyOf(ds[i].name) == key
    ensures Leads(ds, key, n, w)
    decreases n
  {
    if exists k :: 0 <= k < n - 1 && KeyOf(ds[k].name) == key {
      var k :| 0 <= k < n - 1 && KeyOf(ds[k].name) == key;
      var v := SomeNativeLeads(ds, key, n - 1, k);
      w := if KeyOf(ds[n - 1].name) == key && Outranks(ds, n - 1, v) then n - 1 else v;
      forall p | 0 <= p < n && p != w && KeyOf(ds[p].name) == key
        ensures Outranks(ds, w, p)
      {
        OutranksIsAStrictOrder(ds, w, v, p);
        OutranksIsAStrictOrder(ds, v, p, p);
      }
    } else {
      w := i;
    }
  }

  lemma LeaderIsNotDuplicate(ds: seq<Device>, key: string, w: int, i: int)
    requires key != "" && Leads(ds, key, |ds|, w)
    requires 0 <= i < |ds| && KeyOf(ds[i].name) == key
    ensures Duplicate(ds, i) <==> i != w
  {
    if Duplicate(ds, w) {
      var j :| 0 <= j < |ds| && Outranks(ds, j, w);
      OutranksIsAStrictOrder(ds, j, w, w);
    }
  }

  /** Every non-blank label in use has exactly one native that is not a duplicate. It sits on the primary hub
      if any native with that label does, and otherwise on the hub with the least id among them. */
  lemma OneWinnerPerLabel(ds: seq<Device>, i: int) returns (w: int)
    requires 0 <= i < |ds| && KeyOf(ds[i].name) != ""
    ensures 0 <= w < |ds| && KeyOf(ds[w].name) == KeyOf(ds[i].name) && !Duplicate(ds, w)
    ensures forall k :: 0 <= k < |ds| && KeyOf(ds[k].name) == KeyOf(ds[i].name) && !Duplicate(ds, k) ==> k == w
    ensures forall k :: 0 <= k < |ds| && KeyOf(ds[k].name) == KeyOf(ds[i].name) ==>
                          && (ds[k].hub.primary ==> ds[w].hub.primary)
                          && (ds[k].hub.primary == ds[w].hub.primary ==> NoWorseId(ds[w].hub, ds[k].hub))
  {
    var key := KeyOf(ds[i].name);
    w := SomeNativeLeads(ds, key, |ds|, i);
    forall k | 0 <= k < |ds| && KeyOf(ds[k].name) == key
      ensures (Duplicate(ds, k) <==> k != w) && !RanksBefore(ds[k].hub, ds[w].hub)
    {
      LeaderIsNotDuplicate(ds, key, w, k);
      OutranksIsAStrictOrder(ds, w, k, k);
    }
  }

  // ----- The order in which hubs are read does not matter -----

  /** Hub h's p-th native stands at this place among all natives. */
  function Place(fetches: seq<Fetch>, h: int, p: int): (i: int)
    requires 0 <= h < |fetches| && 0 <= p < |NativesOf(fetches[h])|
    ensures 0 <= i < |AllNatives(fetches)| && AllNatives(fetches)[i] == NativesOf(fetches[h])[p]
  {
    if h == |fetches| - 1 then |AllNatives(Init(fetches))| + p else Place(Init(fetches), h, p)
  }

  lemma {:induction false} EveryNativeHasAPlace(fetches: seq<Fetch>, i: int) returns (h: int, p: int)
    requires 0 <= i < |AllNatives(fetches)|
    ensures 0 <= h < |fetches| && 0 <= p < |NativesOf(fetches[h])| && Place(fetches, h, p) == i
    decreases |fetches|
  {
    var before := |AllNatives(Init(fetches))|;
    if i < before {
      h, p := EveryNativeHasAPlace(Init(fetches), i);
    } else {
      h, p := |fetches| - 1, i - before;
    }
  }

  lemma {:induction false} PlacesKeepHubOrder(fetches: seq<Fetch>, h: int, p: int, q: int)
    requires 0 <= h < |fetches| && 0 <= p < |NativesOf(fetches[h])| && 0 <= q < |NativesOf(fetches[h])|
    ensures p < q <==> Place(fetches, h, p) < Place(fetches, h, q)
    decreases |fetches|
  {
    if h < |fetches| - 1 {
      PlacesKeepHubOrder(Init(fetches), h, p, q);
    }
  }

  /** No two of the hubs rank alike. */
  ghost predicate DistinctIds(fetches: seq<Fetch>) {
    forall a, b :: 0 <= a < b < |fetches| ==> HubId(fetches[a].hub) != HubId(fetches[b].hub)
  }

  ghost predicate SameFetches(a: seq<Fetch>, b: seq<Fetch>) {
    forall f :: f in a <==> f in b
  }

  /** With distinct hub ids, a native that is a duplicate under one order of the hubs is one under any. */
  lemma DuplicateUnderAnyOrder(a: seq<Fetch>, b: seq<Fetch>, h: int, g: int, p: int)
    requires DistinctIds(a) && DistinctIds(b) && SameFetches(a, b)
    requires 0 <= h < |a| && 0 <= g < |b| && a[h] == b[g] && 0 <= p < |NativesOf(a[h])|
    requires Duplicate(AllNatives(a), Place(a, h, p))
    ensures Duplicate(AllNatives(b), Place(b, g, p))
  {
    var da, db, i := AllNatives(a), AllNatives(b), Place(a, h, p);
    var j :| 0 <= j < |da| && Outranks(da, j, i);
    var h', p' := EveryNativeHasAPlace(a, j);
    assert a[h'] in b;
    var g' :| 0 <= g' < |b| && b[g'] == a[h'];
    assert da[i].hub == a[h].hub && da[j].hub == a[h'].hub;
    if h' == h {
      PlacesKeepHubOrder(a, h, p', p);
      PlacesKeepHubOrder(b, g, p', p);
      assert g' == g;
    }
    assert Outranks(db, Place(b, g', p'), Place(b, g, p));
  }

  /** The verdict on a native does not depend on the order in which hubs with distinct ids are read. */
  lemma VerdictIgnoresHubOrder(a: seq<Fetch>, b: seq<Fetch>, h: int, g: int, p: int)
    requires DistinctIds(a) && DistinctIds(b) && SameFetches(a, b)
    requires 0 <= h < |a| && 0 <= g < |b| && a[h] == b[g] && 0 <= p < |NativesOf(a[h])|
    ensures Duplicate(AllNatives(a), Place(a, h, p)) <==> Duplicate(AllNatives(b), Place(b, g, p))
  {
    if Duplicate(AllNatives(a), Place(a, h, p)) {
      DuplicateUnderAnyOrder(a, b, h, g, p);
    }
    if Duplicate(AllNatives(b), Place(b, g, p)) {
      DuplicateUnderAnyOrder(b, a, g, h, p);
    }
  }

  // ----- Reading one hub, and flagging duplicates in place -----

  method ClassifyHub(f: Fetch) returns (native: seq<Entry>, linked: seq<Device>)
    ensures Describes(native, NativesOf(f)) && linked == LinkedOf(f)
    ensures NoDup(native) && forall i :: 0 <= i < |native| ==> fresh(native[i]) && !native[i].duplicate
  {
    native, linked := [], [];
    var lines := f.roster.GetOr([]);
    for k := 0 to |lines|
      invariant Describes(native, Kept(f.hub, lines[..k], false)) && linked == Kept(f.hub, lines[..k], true)
      invariant NoDup(native) && forall i :: 0 <= i < |native| ==> fresh(native[i]) && !native[i].duplicate
    {
      assert Init(lines[..k + 1]) == lines[..k] && Last(lines[..k + 1]) == lines[k];
      var name := lines[k].shown;
      if name == "" {
        name := lines[k].name;
      }
      var d := Device(f.hub, lines[k].id, Text.Strip(name), lines[k].deviceType);
      if lines[k].linked {
        linked := linked + [d];
      } else {
        var e := new Entry(d);
        native := native + [e];
      }
    }
    assert lines[..|lines|] == lines;
  }

  function CarriesKey(key: string): Device -> bool {
    (d: Device) => KeyOf(d.name) == key
  }

  /** The places before n that carry this key, in order. */
  ghost predicate IsGroup(ds: seq<Device>, n: int, key: string, group: seq<int>)
    requires 0 <= n <= |ds|
  {
    group != [] && group == Positions(ds[..n], CarriesKey(key))
  }

  lemma GroupHolds(ds: seq<Device>, key: string, group: seq<int>)
    requires IsGroup(ds, |ds|, key, group)
    ensures forall a, b :: 0 <= a < b < |group| ==> group[a] < group[b]
    ensures forall a :: 0 <= a < |group| ==> 0 <= group[a] < |ds| && KeyOf(ds[group[a]].name) == key
    ensures forall i :: 0 <= i < |ds| && KeyOf(ds[i].name) == key ==> i in group
  {
    assert ds[..|ds|] == ds;
    PositionsAre(ds, CarriesKey(key));
  }

  ghost predicate Grouped(ds: seq<Device>, n: int, keys: seq<string>, groups: map<string, seq<int>>)
    requires 0 <= n <= |ds|
  {
    && (forall k :: k in keys <==> k in groups)
    && (forall i :: 0 <= i < n && KeyOf(ds[i].name) != "" ==> KeyOf(ds[i].name) in groups)
    && (forall k :: k in groups ==> k != "" && IsGroup(ds, n, k, groups[k]))
  }

  lemma PlacesGrow(ds: seq<Device>, n: int, key: string)
    requires 0 <= n < |ds|
    ensures Positions(ds[..n + 1], CarriesKey(key)) ==
            Positions(ds[..n], CarriesKey(key)) + if KeyOf(ds[n].name) == key then [n] else []
  {
    assert Init(ds[..n + 1]) == ds[..n];
  }

  lemma GroupGrows(ds: seq<Device>, n: int, key: string, group: seq<int>)
    requires 0 <= n < |ds| && IsGroup(ds, n, key, group)
    ensures IsGroup(ds, n + 1, key, if KeyOf(ds[n].name) == key then group + [n] else group)
  {
    PlacesGrow(ds, n, key);
    assert group + [] == group;
  }

  lemma BlankIsLeftOut(ds: seq<Device>, n: int, keys: seq<string>, groups: map<string, seq<int>>)
    requires 0 <= n < |ds| && Grouped(ds, n, keys, groups) && KeyOf(ds[n].name) == ""
    ensures Grouped(ds, n + 1, keys, groups)
  {
    forall k | k in groups
      ensures IsGroup(ds, n + 1, k, groups[k])
    {
      GroupGrows(ds, n, k, groups[k]);
    }
  }

  lemma GroupGoesOn(ds: seq<Device>, n: int, keys: seq<string>, groups: map<string, seq<int>>, key: string)
    requires 0 <= n < |ds| && Grouped(ds, n, keys, groups) && key == KeyOf(ds[n].name)
    requires key in groups
    ensures Grouped(ds, n + 1, keys, groups[key := groups[key] + [n]])
  {
    var after := groups[key := groups[key] + [n]];
    forall k | k in after
      ensures IsGroup(ds, n + 1, k, after[k])
    {
      GroupGrows(ds, n, k, groups[k]);
    }
  }

  lemma NoneCarries(ds: seq<Device>, n: int, key: string)
    requires 0 <= n <= |ds| && forall i :: 0 <= i < n ==> KeyOf(ds[i].name) != key
    ensures Positions(ds[..n], CarriesKey(key)) == []
  {
    var ps := Positions(ds[..n], CarriesKey(key));
    if ps != [] {
      PositionsHold(ds[..n], CarriesKey(key), ps[0]);
    }
  }

  lemma KeysGrow(keys: seq<string>, groups: map<string, seq<int>>, key: string, group: seq<int>)
    requires forall k :: k in keys <==> k in groups
    ensures forall k :: k in keys + [key] <==> k in groups[key := group]
  {
    forall k ensures k in keys + [key] <==> k in groups[key := group] {
      assert k in keys + [key] <==> k in keys || k == key;
    }
  }

  lemma GroupStarts(ds: seq<Device>, n: int, keys: seq<string>, groups: map<string, seq<int>>, key: string)
    requires 0 <= n < |ds| && Grouped(ds, n, keys, groups) && key == KeyOf(ds[n].name)
    requires key != "" && key !in groups
    ensures Grouped(ds, n + 1, keys + [key], groups[key := [n]])
  {
    NoneCarries(ds, n, key);
    PlacesGrow(ds, n, key);
    assert [] + [n] == [n];
    var after := groups[key := [n]];
    forall k | k in after
      ensures IsGroup(ds, n + 1, k, after[k])
    {
      if k != key {
        GroupGrows(ds, n, k, groups[k]);
      }
    }
    KeysGrow(keys, groups, key, [n]);
  }

  /** The non-blank keys in order of first appearance, each with the places that carry it. */
  method GroupByKey(all: seq<Entry>, ghost ds: seq<Device>)
    returns (keys: seq<string>, groups: map<string, seq<int>>)
    requires Describes(all, ds)
    ensures Grouped(ds, |ds|, keys, groups)
  {
    keys, groups := [], map[];
    for n := 0 to |all|
      invariant Grouped(ds, n, keys, groups)
    {
      var key := KeyOf(all[n].device.name);
      if key == "" {
        BlankIsLeftOut(ds, n, keys, groups);
      } else if key in groups {
        GroupGoesOn(ds, n, keys, groups, key);
        groups := groups[key := groups[key] + [n]];
      } else {
        GroupStarts(ds, n, keys, groups, key);
        keys := keys + [key];
        groups := groups[key := [n]];
      }
    }
  }

  method WinnerOf(all: seq<Entry>, ghost ds: seq<Device>, group: seq<int>, ghost key: string) returns (w: int)
    requires Describes(all, ds) && IsGroup(ds, |ds|, key, group)
    ensures Leads(ds, key, |ds|, w)
  {
    GroupHolds(ds, key, group);
    w := group[0];
    for g := 1 to |group|
      invariant w in group[..g]
      invariant forall a :: 0 <= a < g && group[a] != w ==> Outranks(ds, w, group[a])
    {
      ghost var v := w;
      if RanksBefore(all[group[g]].device.hub, all[w].device.hub) {
        w := group[g];
        forall a | 0 <= a < g
          ensures Outranks(ds, w, group[a])
        {
          OutranksIsAStrictOrder(ds, w, v, group[a]);
        }
      }
    }
  }

  /** Flags the members of a group of two or more, all but the winner. */
  method FlagLosers(all: seq<Entry>, group: seq<int>, w: int)
    requires NoDup(all) && forall a :: 0 <= a < |group| ==> 0 <= group[a] < |all|
    modifies all
    ensures forall i :: 0 <= i < |all| ==>
                          all[i].duplicate == if i in group then |group| > 1 && i != w else old(all[i].duplicate)
  {
    for g := 0 to |group|
      invariant forall i :: 0 <= i < |all| ==>
                              all[i].duplicate == if i in group[..g] then |group| > 1 && i != w else old(all[i].duplicate)
    {
      all[group[g]].duplicate := |group| > 1 && group[g] != w;
      assert group[..g + 1] == group[..g] + [group[g]];
    }
    assert group[..|group|] == group;
  }

  /** In a group every member but the leader is a duplicate, which makes none of a group of one. */
  lemma LosersOfGroup(ds: seq<Device>, key: string, group: seq<int>, w: int, i: int)
    requires key != "" && IsGroup(ds, |ds|, key, group) && Leads(ds, key, |ds|, w) && 0 <= i < |ds|
    ensures i in group <==> KeyOf(ds[i].name) == key
    ensures i in group ==> (Duplicate(ds, i) <==> |group| > 1 && i != w)
  {
    assert ds[..|ds|] == ds;
    PositionsHold(ds, CarriesKey(key), i);
    PositionsHold(ds, CarriesKey(key), w);
    if i in group {
      LeaderIsNotDuplicate(ds, key, w, i);
    }
  }

  method FlagGroup(all: seq<Entry>, ghost ds: seq<Device>, group: seq<int>, ghost key: string)
    requires Describes(all, ds) && NoDup(all) && key != "" && IsGroup(ds, |ds|, key, group)
    modifies all
    ensures forall i :: 0 <= i < |all| ==>
                          all[i].duplicate == if KeyOf(ds[i].name) == key then Duplicate(ds, i) else old(all[i].duplicate)
  {
    GroupHolds(ds, key, group);
    var w := WinnerOf(all, ds, group, key);
    FlagLosers(all, group, w);
    forall i | 0 <= i < |all|
      ensures all[i].duplicate == if KeyOf(ds[i].name) == key then Duplicate(ds, i) else old(all[i].duplicate)
    {
      LosersOfGroup(ds, key, group, w, i);
    }
  }

  /** Marks every native that lost its label, and no other. */
  method FlagDuplicates(all: seq<Entry>, ghost ds: seq<Device>)
    requires Describes(all, ds) && NoDup(all) && forall i :: 0 <= i < |all| ==> !all[i].duplicate
    modifies all
    ensures forall i :: 0 <= i < |all| ==> all[i].duplicate == Duplicate(ds, i)
  {
    var keys, groups := GroupByKey(all, ds);
    for k := 0 to |keys|
      invariant forall i :: 0 <= i < |all| ==>
                              all[i].duplicate == (KeyOf(ds[i].name) in keys[..k] && Duplicate(ds, i))
    {
      FlagGroup(all, ds, groups[keys[k]], keys[k]);
      assert keys[..k + 1] == keys[..k] + [keys[k]];
    }
    assert keys[..|keys|] == keys;
  }

  // ----- Routing: where commands for a label go -----

  datatype Route = Route(hubName: string, hubIp: string, id: string, deviceType: string)

  datatype Mirror = Mirror(id: string, hubIp: string)

  datatype Routing = Routing(name: string, native: Route, mirrors: map<string, Mirror>)

  /** A hub that answered, with the device each of its labels stands for. */
  datatype Known = Known(hub: HubConfig, devices: map<string, Device>)

  function RouteOf(d: Device): Route {
    Route(d.hub.name, d.hub.ip, d.id, d.deviceType)
  }

  /** Per exact label, the route to the last native that is not flagged. */
  function Registry(ds: seq<Device>, flags: seq<bool>): map<string, Route>
    requires |ds| == |flags|
  {
    if ds == [] then map[]
    else if Last(flags) then Registry(Init(ds), Init(flags))
    else Registry(Init(ds), Init(flags))[Last(ds).name := RouteOf(Last(ds))]
  }

  /** Per exact label, the last device listed under it. */
  function HubTable(ds: seq<Device>): map<string, Device> {
    if ds == [] then map[] else HubTable(Init(ds))[Last(ds).name := Last(ds)]
  }

  function KnownOf(fetches: seq<Fetch>): seq<Known> {
    if fetches == [] then []
    else if Last(fetches).roster.None? then KnownOf(Init(fetches))
    else KnownOf(Init(fetches)) + [Known(Last(fetches).hub, HubTable(NativesOf(Last(fetches)) + LinkedOf(Last(fetches))))]
  }

  /** The devices carrying this exact label on hubs other than home. */
  function Mirrors(known: seq<Known>, name: string, home: string): map<string, Mirror> {
    if known == [] then map[]
    else if Last(known).hub.name != home && name in Last(known).devices then
      Mirrors(Init(known), name, home)[Last(known).hub.name := Mirror(Last(known).devices[name].id, Last(known).hub.ip)]
    else Mirrors(Init(known), name, home)
  }

  ghost predicate Verdicts(ds: seq<Device>, flags: seq<bool>) {
    |flags| == |ds| && forall i :: 0 <= i < |ds| ==> flags[i] == Duplicate(ds, i)
  }

  ghost predicate Lists(names: seq<string>, registry: map<string, Route>) {
    NoDup(names) && forall n :: n in names <==> n in registry
  }

  /** The routing entries are one per registered label, each with that label's mirrors. */
  ghost predicate IsRouting(routes: seq<Routing>, registry: map<string, Route>, known: seq<Known>) {
    && (forall a, b :: 0 <= a < b < |routes| ==> routes[a].name != routes[b].name)
    && (forall n :: n in registry ==> exists a :: 0 <= a < |routes| && routes[a].name == n)
    && (forall a :: 0 <= a < |routes| ==>
                      && routes[a].name in registry && routes[a].native == registry[routes[a].name]
                      && routes[a].mirrors == Mirrors(known, routes[a].name, routes[a].native.hubName))
  }

  lemma {:induction false} RegistryHoldsUnflagged(ds: seq<Device>, flags: seq<bool>, n: string)
    requires |ds| == |flags|
    ensures n in Registry(ds, flags) <==> exists i :: 0 <= i < |ds| && !flags[i] && ds[i].name == n
    ensures n in Registry(ds, flags) ==>
              exists i :: 0 <= i < |ds| && !flags[i] && ds[i].name == n && Registry(ds, flags)[n] == RouteOf(ds[i])
  {
    if ds != [] {
      RegistryHoldsUnflagged(Init(ds), Init(flags), n);
      if n in Registry(Init(ds), Init(flags)) {
        var i :| 0 <= i < |ds| - 1 && !flags[i] && ds[i].name == n
                 && Registry(Init(ds), Init(flags))[n] == RouteOf(Init(ds)[i]);
        assert ds[i] == Init(ds)[i];
      }
      if i :| 0 <= i < |ds| - 1 && !flags[i] && ds[i].name == n {
        assert Init(ds)[i].name == n && !Init(flags)[i];
      }
      if !Last(flags) && Last(ds).name == n {
        assert ds[|ds| - 1].name == n;
      }
    }
  }

  /** Each non-blank label routes to exactly one native, the one that is not a duplicate. */
  lemma LabelRoutesToItsWinner(fetches: seq<Fetch>, flags: seq<bool>, routes: seq<Routing>, i: int) returns (w: int, a: int)
    requires Verdicts(AllNatives(fetches), flags)
    requires IsRouting(routes, Registry(AllNatives(fetches), flags), KnownOf(fetches))
    requires 0 <= i < |AllNatives(fetches)| && KeyOf(AllNatives(fetches)[i].name) != ""
    ensures 0 <= w < |AllNatives(fetches)| && !Duplicate(AllNatives(fetches), w)
    ensures KeyOf(AllNatives(fetches)[w].name) == KeyOf(AllNatives(fetches)[i].name)
    ensures 0 <= a < |routes| && routes[a].name == AllNatives(fetches)[w].name
    ensures routes[a].native == RouteOf(AllNatives(fetches)[w])
    ensures forall b :: 0 <= b < |routes| && KeyOf(routes[b].name) == KeyOf(AllNatives(fetches)[i].name) ==> b == a
  {
    var ds := AllNatives(fetches);
    var registry := Registry(ds, flags);
    w := OneWinnerPerLabel(ds, i);
    RegistryHoldsUnflagged(ds, flags, ds[w].name);
    assert ds[w].name in registry;
    a :| 0 <= a < |routes| && routes[a].name == ds[w].name;
    forall b | 0 <= b < |routes| && KeyOf(routes[b].name) == KeyOf(ds[i].name)
      ensures b == a
    {
      RegistryHoldsUnflagged(ds, flags, routes[b].name);
      var j :| 0 <= j < |ds| && !flags[j] && ds[j].name == routes[b].name;
      assert j == w;
    }
  }

  /** i is the last native of this exact name that is not flagged. */
  ghost predicate IsLastUnflagged(ds: seq<Device>, flags: seq<bool>, n: string, i: int)
    requires |ds| == |flags|
  {
    0 <= i < |ds| && !flags[i] && ds[i].name == n && forall j :: i < j < |ds| && ds[j].name == n ==> flags[j]
  }

  lemma {:induction false} RegistryHoldsLast(ds: seq<Device>, flags: seq<bool>, n: string) returns (i: int)
    requires |ds| == |flags| && n in Registry(ds, flags)
    ensures IsLastUnflagged(ds, flags, n, i) && Registry(ds, flags)[n] == RouteOf(ds[i])
  {
    if !Last(flags) && Last(ds).name == n {
      i := |ds| - 1;
    } else {
      i := RegistryHoldsLast(Init(ds), Init(flags), n);
      forall j | i < j < |ds| && ds[j].name == n ensures flags[j] {
        assert j < |ds| - 1 ==> Init(ds)[j] == ds[j] && Init(flags)[j] == flags[j];
      }
    }
  }

  /** Natives without a label do not compete, so none is flagged; all share one routing entry, and it names the last of
      them, in the order of the hubs. */
  lemma BlankLabelRoutesToTheLast(fetches: seq<Fetch>, flags: seq<bool>, routes: seq<Routing>, a: int) returns (i: int)
    requires Verdicts(AllNatives(fetches), flags)
    requires IsRouting(routes, Registry(AllNatives(fetches), flags), KnownOf(fetches))
    requires 0 <= a < |routes| && routes[a].name == ""
    ensures 0 <= i < |AllNatives(fetches)| && AllNatives(fetches)[i].name == "" && !Duplicate(AllNatives(fetches), i)
    ensures routes[a].native == RouteOf(AllNatives(fetches)[i])
    ensures forall j :: i < j < |AllNatives(fetches)| ==> AllNatives(fetches)[j].name != ""
  {
    var ds := AllNatives(fetches);
    i := RegistryHoldsLast(ds, flags, "");
    LabelsAgreeExactlyWhen("", "");
    assert KeyOf("") == "";
  }

  /** Line q of hub h's roster is about a native. */
  predicate NativeLine(fetches: seq<Fetch>, h: int, q: int) {
    && 0 <= h < |fetches| && fetches[h].roster.Some? && 0 <= q < |fetches[h].roster.value|
    && !fetches[h].roster.value[q].linked
  }

  function TextAt(fetches: seq<Fetch>, h: int, q: int): string
    requires NativeLine(fetches, h, q)
  {
    ShownText(fetches[h].roster.value[q])
  }

  /** A device name and the text it was cut from have the same key. */
  lemma StrippedHasSameKey(text: string)
    ensures KeyOf(Text.Strip(text)) == KeyOf(text)
  {
    var t := Text.Strip(text);
    Text.StripIsCore(text);
    Text.StripIsCore(t);
    assert t[0..|t|] == t && Text.CutsBlanks(t, 0, |t|);
    assert Text.IsCore(t, t);
    Text.CoreIsUnique(t, t, Text.Strip(t));
  }

  /** Every native has a line, and every native line a native. */
  lemma LineOfNative(fetches: seq<Fetch>, i: int) returns (h: int, q: int)
    requires 0 <= i < |AllNatives(fetches)|
    ensures NativeLine(fetches, h, q)
    ensures IsAbout(AllNatives(fetches)[i], fetches[h].hub, fetches[h].roster.value[q])
    ensures KeyOf(AllNatives(fetches)[i].name) == KeyOf(TextAt(fetches, h, q))
  {
    var p;
    h, p := EveryNativeHasAPlace(fetches, i);
    var f := fetches[h];
    var qs := Positions(f.roster.GetOr([]), IsMarked(false));
    KeptAreTheLinesMarked(f.hub, f.roster.GetOr([]), false);
    q := qs[p];
    assert q in qs;
    StrippedHasSameKey(TextAt(fetches, h, q));
  }

  lemma NativeOfLine(fetches: seq<Fetch>, h: int, q: int) returns (i: int)
    requires NativeLine(fetches, h, q)
    ensures 0 <= i < |AllNatives(fetches)|
    ensures IsAbout(AllNatives(fetches)[i], fetches[h].hub, fetches[h].roster.value[q])
    ensures KeyOf(AllNatives(fetches)[i].name) == KeyOf(TextAt(fetches, h, q))
  {
    var f := fetches[h];
    var qs := Positions(f.roster.value, IsMarked(false));
    KeptAreTheLinesMarked(f.hub, f.roster.value, false);
    assert q in qs;
    var p :| 0 <= p < |qs| && qs[p] == q;
    i := Place(fetches, h, p);
    StrippedHasSameKey(TextAt(fetches, h, q));
  }

  /** Hub g's line cannot take the label from hub h's: hub h is primary if hub g is, and if both or neither are, its id
      is no worse. */
  ghost predicate HoldsAgainst(h: HubConfig, g: HubConfig) {
    (g.primary ==> h.primary) && (g.primary == h.primary ==> NoWorseId(h, g))
  }

  /** Routing, from the rosters alone: for a native line whose text is not blank there is exactly one routing entry
      under a label that agrees with it but for case and blanks. The entry names the hub, address, id and type of one
      native line under such a label, the one that holds against all others. */
  lemma LabelRoutesToARosterLine(fetches: seq<Fetch>, flags: seq<bool>, routes: seq<Routing>, g: int, q: int)
    returns (a: int, h: int, r: int)
    requires Verdicts(AllNatives(fetches), flags)
    requires IsRouting(routes, Registry(AllNatives(fetches), flags), KnownOf(fetches))
    requires NativeLine(fetches, g, q) && exists k :: 0 <= k < |TextAt(fetches, g, q)| && TextAt(fetches, g, q)[k] !in Text.BLANKS
    ensures NativeLine(fetches, h, r) && Text.SameKey(TextAt(fetches, h, r), TextAt(fetches, g, q))
    ensures 0 <= a < |routes| && routes[a].name == Text.Strip(TextAt(fetches, h, r))
    ensures forall b :: 0 <= b < |routes| && Text.SameKey(routes[b].name, TextAt(fetches, g, q)) ==> b == a
    ensures var line := fetches[h].roster.value[r];
            && routes[a].native.hubName == fetches[h].hub.name && routes[a].native.hubIp == fetches[h].hub.ip
            && routes[a].native.id == line.id && routes[a].native.deviceType == line.deviceType
    ensures forall g', q' :: NativeLine(fetches, g', q') && Text.SameKey(TextAt(fetches, g', q'), TextAt(fetches, g, q)) ==>
                               HoldsAgainst(fetches[h].hub, fetches[g'].hub)
  {
    var ds, text := AllNatives(fetches), TextAt(fetches, g, q);
    var i := NativeOfLine(fetches, g, q);
    LabelsAgreeExactlyWhen(text, text);
    var w;
    w, a := LabelRoutesToItsWinner(fetches, flags, routes, i);
    h, r := LineOfNative(fetches, w);
    LabelsAgreeExactlyWhen(TextAt(fetches, h, r), text);
    forall b | 0 <= b < |routes| && Text.SameKey(routes[b].name, text) ensures b == a {
      LabelsAgreeExactlyWhen(routes[b].name, text);
    }
    var v := OneWinnerPerLabel(ds, i);
    forall g', q' | NativeLine(fetches, g', q') && Text.SameKey(TextAt(fetches, g', q'), text)
      ensures HoldsAgainst(fetches[h].hub, fetches[g'].hub)
    {
      var k := NativeOfLine(fetches, g', q');
      LabelsAgreeExactlyWhen(TextAt(fetches, g', q'), text);
    }
  }

  /** i is the last of these devices listed under the name. */
  ghost predicate IsLastNamed(ds: seq<Device>, n: string, i: int) {
    0 <= i < |ds| && ds[i].name == n && forall j :: i < j < |ds| ==> ds[j].name != n
  }

  lemma LastNamedGrows(ds: seq<Device>, d: Device, n: string, i: int)
    requires d.name != n && IsLastNamed(ds, n, i)
    ensures IsLastNamed(ds + [d], n, i) && (ds + [d])[i] == ds[i]
  {
  }

  lemma {:induction false} HubTableHoldsLast(ds: seq<Device>, n: string)
    ensures n in HubTable(ds) <==> exists i :: 0 <= i < |ds| && ds[i].name == n
    ensures n in HubTable(ds) ==> exists i :: IsLastNamed(ds, n, i) && HubTable(ds)[n] == ds[i]
  {
    if i :| 0 <= i < |ds| && ds[i].name == n {
      NamedIsInTable(ds, n, i);
    }
    if n in HubTable(ds) {
      var i := LastInTable(ds, n);
    }
  }

  lemma {:induction false} NamedIsInTable(ds: seq<Device>, n: string, i: int)
    requires 0 <= i < |ds| && ds[i].name == n
    ensures n in HubTable(ds)
  {
    if i < |ds| - 1 {
      assert Init(ds)[i] == ds[i];
      NamedIsInTable(Init(ds), n, i);
    }
  }

  lemma {:induction false} LastInTable(ds: seq<Device>, n: string) returns (i: int)
    requires n in HubTable(ds)
    ensures IsLastNamed(ds, n, i) && HubTable(ds)[n] == ds[i]
  {
    if Last(ds).name == n {
      i := |ds| - 1;
    } else {
      i := LastInTable(Init(ds), n);
      LastNamedGrows(Init(ds), Last(ds), n, i);
      assert Init(ds) + [Last(ds)] == ds;
    }
  }

  ghost predicate DistinctNames(fetches: seq<Fetch>) {
    forall a, b :: 0 <= a < b < |fetches| ==> fetches[a].hub.name != fetches[b].hub.name
  }

  /** The devices a hub's table is built from: its natives, then its mesh-linked devices. */
  function DevicesOf(f: Fetch): seq<Device> {
    NativesOf(f) + LinkedOf(f)
  }

  /** The mirror of a label is absent from the home hub, present on exactly the other hubs that list the
      label, and names the last device listed under it there. */
  lemma {:induction false} MirrorsLieElsewhere(fetches: seq<Fetch>, name: string, home: string, h: int)
    requires DistinctNames(fetches) && 0 <= h < |fetches|
    ensures home !in Mirrors(KnownOf(fetches), name, home)
    ensures var f, mirrors := fetches[h], Mirrors(KnownOf(fetches), name, home);
            && (f.hub.name in mirrors <==>
                f.hub.name != home && exists i :: 0 <= i < |DevicesOf(f)| && DevicesOf(f)[i].name == name)
            && (f.hub.name in mirrors ==>
                exists i :: IsLastNamed(DevicesOf(f), name, i)
                            && mirrors[f.hub.name] == Mirror(DevicesOf(f)[i].id, f.hub.ip))
    decreases |fetches|
  {
    var known := KnownOf(fetches);
    MirrorsSkipUnknown(Init(fetches), name, home, Last(fetches).hub.name);
    if Last(fetches).roster.Some? {
      InitSnoc(KnownOf(Init(fetches)), Known(Last(fetches).hub, HubTable(DevicesOf(Last(fetches)))));
      HubTableHoldsLast(DevicesOf(Last(fetches)), name);
    }
    if h < |fetches| - 1 {
      MirrorsLieElsewhere(Init(fetches), name, home, h);
    }
  }

  /** A roster line goes by exactly this name. */
  ghost predicate Named(f: Fetch, q: int, name: string) {
    f.roster.Some? && 0 <= q < |f.roster.value| && Text.Strip(ShownText(f.roster.value[q])) == name
  }

  /** No line goes by the name later, a mesh-linked line counting as later than any native's. */
  ghost predicate LastNamed(f: Fetch, q: int, name: string) {
    && Named(f, q, name)
    && forall r :: Named(f, r, name) && r != q ==>
                     if f.roster.value[r].linked == f.roster.value[q].linked then r < q else f.roster.value[q].linked
  }

  function LinesMarked(f: Fetch, linked: bool): seq<int> {
    Positions(f.roster.GetOr([]), IsMarked(linked))
  }

  /** Where the line of the i-th device of a hub is in the roster: natives first, each kind in roster order. */
  function LineNumber(f: Fetch, i: int): int
    requires 0 <= i < |LinesMarked(f, false)| + |LinesMarked(f, true)|
  {
    var natives := LinesMarked(f, false);
    if i < |natives| then natives[i] else LinesMarked(f, true)[i - |natives|]
  }

  lemma LineOfDevice(f: Fetch, i: int)
    requires 0 <= i < |DevicesOf(f)|
    ensures |DevicesOf(f)| == |LinesMarked(f, false)| + |LinesMarked(f, true)|
    ensures var q := LineNumber(f, i);
            && f.roster.Some? && 0 <= q < |f.roster.value| && IsAbout(DevicesOf(f)[i], f.hub, f.roster.value[q])
            && (f.roster.value[q].linked <==> i >= |LinesMarked(f, false)|)
  {
    var lines := f.roster.GetOr([]);
    KeptAreTheLinesMarked(f.hub, lines, false);
    KeptAreTheLinesMarked(f.hub, lines, true);
    PositionsHold(lines, IsMarked(false), LineNumber(f, i));
    PositionsHold(lines, IsMarked(true), LineNumber(f, i));
  }

  lemma DeviceOfLine(f: Fetch, q: int) returns (i: int)
    requires f.roster.Some? && 0 <= q < |f.roster.value|
    ensures 0 <= i < |DevicesOf(f)| == |LinesMarked(f, false)| + |LinesMarked(f, true)| && LineNumber(f, i) == q
  {
    KeptAreTheLinesMarked(f.hub, f.roster.value, false);
    KeptAreTheLinesMarked(f.hub, f.roster.value, true);
    var qs := LinesMarked(f, f.roster.value[q].linked);
    PositionsHold(f.roster.value, IsMarked(f.roster.value[q].linked), q);
    i :| 0 <= i < |qs| && qs[i] == q;
    if f.roster.value[q].linked {
      i := |LinesMarked(f, false)| + i;
    }
  }

  /** Of two devices of a kind the later one has the later line. */
  lemma LinesAscend(f: Fetch, i: int, j: int)
    requires 0 <= j < i < |DevicesOf(f)| == |LinesMarked(f, false)| + |LinesMarked(f, true)|
    requires j < |LinesMarked(f, false)| <==> i < |LinesMarked(f, false)|
    ensures LineNumber(f, j) < LineNumber(f, i)
  {
    var lines, n := f.roster.GetOr([]), |LinesMarked(f, false)|;
    if i < n {
      PositionsAscend(lines, IsMarked(false), i);
    } else {
      PositionsAscend(lines, IsMarked(true), i - n);
    }
  }

  lemma LastDeviceIsLastLine(f: Fetch, name: string, i: int) returns (q: int)
    requires IsLastNamed(DevicesOf(f), name, i)
    ensures LastNamed(f, q, name) && f.roster.value[q].id == DevicesOf(f)[i].id
  {
    LineOfDevice(f, i);
    q := LineNumber(f, i);
    forall r | Named(f, r, name) && r != q
      ensures if f.roster.value[r].linked == f.roster.value[q].linked then r < q else f.roster.value[q].linked
    {
      var j := DeviceOfLine(f, r);
      LineOfDevice(f, j);
      assert DevicesOf(f)[j].name == name;
      if f.roster.value[r].linked == f.roster.value[q].linked {
        LinesAscend(f, i, j);
      }
    }
  }

  /** Mirrors, from the rosters alone: another hub is a mirror of a label exactly when one of its roster lines, native or
      linked, goes by that very name; the mirror is the device of the last such line, at the hub's address. */
  lemma MirrorIsTheLastLineNamed(fetches: seq<Fetch>, name: string, home: string, h: int)
    requires DistinctNames(fetches) && 0 <= h < |fetches|
    ensures var f, mirrors := fetches[h], Mirrors(KnownOf(fetches), name, home);
            && (f.hub.name in mirrors <==> f.hub.name != home && exists q :: Named(f, q, name))
            && (f.hub.name in mirrors ==>
                exists q :: LastNamed(f, q, name) && mirrors[f.hub.name] == Mirror(f.roster.value[q].id, f.hub.ip))
  {
    var f, ds, mirrors := fetches[h], DevicesOf(fetches[h]), Mirrors(KnownOf(fetches), name, home);
    MirrorsLieElsewhere(fetches, name, home, h);
    if q :| Named(f, q, name) {
      var i := DeviceOfLine(f, q);
      LineOfDevice(f, i);
      assert ds[i].name == name;
    }
    if f.hub.name in mirrors {
      var i :| IsLastNamed(ds, name, i) && mirrors[f.hub.name] == Mirror(ds[i].id, f.hub.ip);
      var q := LastDeviceIsLastLine(f, name, i);
    }
  }

  lemma {:induction false} MirrorsSkipUnknown(fetches: seq<Fetch>, name: string, home: string, hub: string)
    requires forall h :: 0 <= h < |fetches| ==> fetches[h].hub.name != hub
    ensures home !in Mirrors(KnownOf(fetches), name, home) && hub !in Mirrors(KnownOf(fetches), name, home)
  {
    if fetches != [] {
      MirrorsSkipUnknown(Init(fetches), name, home, hub);
      if Last(fetches).roster.Some? {
        InitSnoc(KnownOf(Init(fetches)), Known(Last(fetches).hub, HubTable(DevicesOf(Last(fetches)))));
      }
    }
  }

  /** A native found under a routed label on a hub other than that label's home is a flagged duplicate. */
  lemma NativeMirrorsAreDuplicates(fetches: seq<Fetch>, flags: seq<bool>, routes: seq<Routing>, a: int, h: int, p: int)
    requires Verdicts(AllNatives(fetches), flags)
    requires IsRouting(routes, Registry(AllNatives(fetches), flags), KnownOf(fetches))
    requires 0 <= a < |routes| && KeyOf(routes[a].name) != ""
    requires 0 <= h < |fetches| && fetches[h].hub.name != routes[a].native.hubName
    requires 0 <= p < |NativesOf(fetches[h])| && NativesOf(fetches[h])[p].name == routes[a].name
    ensures Duplicate(AllNatives(fetches), Place(fetches, h, p))
  {
    var w, b := LabelRoutesToItsWinner(fetches, flags, routes, Place(fetches, h, p));
    assert a == b && w != Place(fetches, h, p);
    var v := OneWinnerPerLabel(AllNatives(fetches), Place(fetches, h, p));
  }

  ghost predicate DistinctDeviceIds(f: Fetch) {
    forall i, j :: 0 <= i < j < |DevicesOf(f)| ==> DevicesOf(f)[i].id != DevicesOf(f)[j].id
  }

  /** When a native is a mirror of its label's route, and so can stand in for the winner: exactly when it sits on
      another hub than the winner, is spelled exactly like it, and no later native or mesh-linked device of its
      hub has the same label. */
  lemma NativeIsMirrorExactlyWhen(fetches: seq<Fetch>, flags: seq<bool>, routes: seq<Routing>, a: int, h: int, p: int)
    requires DistinctNames(fetches) && Verdicts(AllNatives(fetches), flags)
    requires IsRouting(routes, Registry(AllNatives(fetches), flags), KnownOf(fetches))
    requires 0 <= a < |routes| && 0 <= h < |fetches| && 0 <= p < |NativesOf(fetches[h])|
    requires DistinctDeviceIds(fetches[h])
    requires KeyOf(NativesOf(fetches[h])[p].name) == KeyOf(routes[a].name)
    ensures var f, r, d := fetches[h], routes[a], NativesOf(fetches[h])[p];
            (f.hub.name in r.mirrors && r.mirrors[f.hub.name].id == d.id) <==>
            (f.hub.name != r.native.hubName && d.name == r.name && IsLastNamed(DevicesOf(f), r.name, p))
  {
    var f, r := fetches[h], routes[a];
    assert DevicesOf(f)[p] == NativesOf(f)[p];
    MirrorsLieElsewhere(fetches, r.name, r.native.hubName, h);
    if f.hub.name in r.mirrors {
      var i :| IsLastNamed(DevicesOf(f), r.name, i) && r.mirrors[f.hub.name] == Mirror(DevicesOf(f)[i].id, f.hub.ip);
      assert IsLastNamed(DevicesOf(f), r.name, p) ==> i == p;
    }
  }

  // ----- Building the routing table -----

  method Register(e: Entry, names0: seq<string>, registry0: map<string, Route>)
    returns (names: seq<string>, registry: map<string, Route>)
    requires Lists(names0, registry0)
    ensures Lists(names, registry)
    ensures registry == if e.duplicate then registry0 else registry0[e.device.name := RouteOf(e.device)]
  {
    names, registry := names0, registry0;
    if !e.duplicate {
      if e.device.name !in registry {
        names := names + [e.device.name];
      }
      var hub := e.device.hub;
      registry := registry[e.device.name := Route(hub.name, hub.ip, e.device.id, e.device.deviceType)];
    }
  }

  /** Enters one hub's natives after those entered before, and returns the table of that hub's natives. */
  method RegisterNatives(native: seq<Entry>, names0: seq<string>, registry0: map<string, Route>,
                         ghost before: seq<Device>, ghost verdicts: seq<bool>, ghost ds: seq<Device>, ghost flags: seq<bool>)
    returns (names: seq<string>, registry: map<string, Route>, table: map<string, Device>)
    requires |before| == |verdicts| && |ds| == |flags| && Describes(native, ds)
    requires forall p :: 0 <= p < |native| ==> native[p].duplicate == flags[p]
    requires registry0 == Registry(before, verdicts) && Lists(names0, registry0)
    ensures registry == Registry(before + ds, verdicts + flags) && Lists(names, registry)
    ensures table == HubTable(ds)
  {
    names, registry, table := names0, registry0, map[];
    assert before + ds[..0] == before && verdicts + flags[..0] == verdicts;
    for p := 0 to |native|
      invariant registry == Registry(before + ds[..p], verdicts + flags[..p]) && Lists(names, registry)
      invariant table == HubTable(ds[..p])
    {
      assert Init(ds[..p + 1]) == ds[..p];
      assert Init(before + ds[..p + 1]) == before + ds[..p];
      assert Init(verdicts + flags[..p + 1]) == verdicts + flags[..p];
      names, registry := Register(native[p], names, registry);
      table := table[native[p].device.name := native[p].device];
    }
    assert ds[..|native|] == ds && flags[..|native|] == flags;
  }

  /** Lists a hub's mesh-linked devices over its natives. */
  method AddLinked(table0: map<string, Device>, linked: seq<Device>, ghost natives: seq<Device>)
    returns (table: map<string, Device>)
    requires table0 == HubTable(natives)
    ensures table == HubTable(natives + linked)
  {
    table := table0;
    assert natives + linked[..0] == natives;
    for q := 0 to |linked|
      invariant table == HubTable(natives + linked[..q])
    {
      assert Init(natives + linked[..q + 1]) == natives + linked[..q];
      table := table[linked[q].name := linked[q]];
    }
    assert linked[..|linked|] == linked;
  }

  method FindMirrors(known: seq<Known>, name: string, home: string) returns (mirrors: map<string, Mirror>)
    ensures mirrors == Mirrors(known, name, home)
  {
    mirrors := map[];
    for k := 0 to |known|
      invariant mirrors == Mirrors(known[..k], name, home)
    {
      assert Init(known[..k + 1]) == known[..k];
      var hub := known[k].hub;
      if hub.name != home && name in known[k].devices {
        mirrors := mirrors[hub.name := Mirror(known[k].devices[name].id, hub.ip)];
      }
    }
    assert known[..|known|] == known;
  }

  method BuildRoutes(names: seq<string>, registry: map<string, Route>, known: seq<Known>) returns (routes: seq<Routing>)
    requires Lists(names, registry)
    ensures IsRouting(routes, registry, known)
  {
    routes := [];
    for k := 0 to |names|
      invariant |routes| == k
      invariant forall a :: 0 <= a < k ==>
                              && routes[a].name == names[a] && routes[a].native == registry[names[a]]
                              && routes[a].mirrors == Mirrors(known, names[a], routes[a].native.hubName)
    {
      var route := registry[names[k]];
      var mirrors := FindMirrors(known, names[k], route.hubName);
      routes := routes + [Routing(names[k], route, mirrors)];
    }
    forall n | n in registry
      ensures exists a :: 0 <= a < |routes| && routes[a].name == n
    {
      var a :| 0 <= a < |names| && names[a] == n;
      assert routes[a].name == n;
    }
  }

  /** The natives of all hubs as one list, and the same list hub by hub. */
  ghost predicate Laid(fetches: seq<Fetch>, all: seq<Entry>, natives: seq<seq<Entry>>, linked: seq<seq<Device>>)
    decreases |fetches|
  {
    && |natives| == |linked| == |fetches|
    && (if fetches == [] then all == [] else
          && |all| >= |Last(natives)|
          && all[|all| - |Last(natives)|..] == Last(natives)
          && Describes(Last(natives), NativesOf(Last(fetches)))
          && Last(linked) == LinkedOf(Last(fetches))
          && Laid(Init(fetches), all[..|all| - |Last(natives)|], Init(natives), Init(linked)))
  }

  lemma LaidGrows(fetches: seq<Fetch>, h: int, all: seq<Entry>, natives: seq<seq<Entry>>, linked: seq<seq<Device>>,
                  native: seq<Entry>, mirrored: seq<Device>)
    requires 0 <= h < |fetches| && Laid(fetches[..h], all, natives, linked)
    requires Describes(native, NativesOf(fetches[h])) && mirrored == LinkedOf(fetches[h])
    ensures Laid(fetches[..h + 1], all + native, natives + [native], linked + [mirrored])
  {
    InitSnoc(fetches[..h], fetches[h]);
    assert fetches[..h + 1] == fetches[..h] + [fetches[h]];
    InitSnoc(natives, native);
    InitSnoc(linked, mirrored);
    assert (all + native)[..|all|] == all && (all + native)[|all|..] == native;
  }

  lemma {:induction false} LaidDescribes(fetches: seq<Fetch>, all: seq<Entry>, natives: seq<seq<Entry>>,
                                         linked: seq<seq<Device>>)
    requires Laid(fetches, all, natives, linked)
    ensures Describes(all, AllNatives(fetches))
  {
    if fetches != [] {
      LaidDescribes(Init(fetches), all[..|all| - |Last(natives)|], Init(natives), Init(linked));
    }
  }

  method ClassifyHubs(fetches: seq<Fetch>)
    returns (all: seq<Entry>, natives: seq<seq<Entry>>, linked: seq<seq<Device>>)
    ensures Laid(fetches, all, natives, linked)
    ensures NoDup(all) && forall i :: 0 <= i < |all| ==> fresh(all[i]) && !all[i].duplicate
  {
    all, natives, linked := [], [], [];
    for h := 0 to |fetches|
      invariant Laid(fetches[..h], all, natives, linked)
      invariant NoDup(all) && forall i :: 0 <= i < |all| ==> fresh(all[i]) && !all[i].duplicate
    {
      var native, mirrored := ClassifyHub(fetches[h]);
      LaidGrows(fetches, h, all, natives, linked, native, mirrored);
      NoDupConcat(all, native);
      all, natives, linked := all + native, natives + [native], linked + [mirrored];
    }
    assert fetches[..|fetches|] == fetches;
  }

  /** The same verdicts, cut where the natives of the first h hubs end. */
  lemma {:induction false} LaidUpTo(fetches: seq<Fetch>, h: int, all: seq<Entry>, natives: seq<seq<Entry>>,
                                    linked: seq<seq<Device>>) returns (n: int)
    requires 0 <= h < |fetches| && Laid(fetches, all, natives, linked)
    ensures n == |AllNatives(fetches[..h])| && n + |natives[h]| <= |all| && linked[h] == LinkedOf(fetches[h])
    ensures all[n..n + |natives[h]|] == natives[h] && Describes(natives[h], NativesOf(fetches[h]))
    ensures AllNatives(fetches[..h + 1]) == AllNatives(fetches[..h]) + NativesOf(fetches[h])
    decreases |fetches|
  {
    assert Init(fetches[..h + 1]) == fetches[..h];
    var before := |all| - |Last(natives)|;
    if h == |fetches| - 1 {
      n := before;
      LaidDescribes(Init(fetches), all[..before], Init(natives), Init(linked));
    } else {
      n := LaidUpTo(Init(fetches), h, all[..before], Init(natives), Init(linked));
      assert Init(fetches)[..h] == fetches[..h];
    }
  }

  /** Classifies every hub's devices, flags the duplicates and builds the routing table. */
  method RunClassification(fetches: seq<Fetch>) returns (all: seq<Entry>, routes: seq<Routing>, ghost flags: seq<bool>)
    requires DistinctNames(fetches)
    ensures Describes(all, AllNatives(fetches)) && Verdicts(AllNatives(fetches), flags)
    ensures forall i :: 0 <= i < |all| ==> all[i].duplicate == flags[i]
    ensures IsRouting(routes, Registry(AllNatives(fetches), flags), KnownOf(fetches))
  {
    ghost var ds := AllNatives(fetches);
    var natives, linked;
    all, natives, linked := ClassifyHubs(fetches);
    LaidDescribes(fetches, all, natives, linked);
    FlagDuplicates(all, ds);
    flags := seq(|ds|, i requires 0 <= i < |ds| => Duplicate(ds, i));
    routes := BuildTable(fetches, all, natives, linked, flags);
  }

  /** One hub's turn: its natives enter the registry and, if it answered, its devices become known. */
  method RegisterHub(f: Fetch, native: seq<Entry>, linked: seq<Device>, names0: seq<string>,
                     registry0: map<string, Route>, known0: seq<Known>,
                     ghost before: seq<Fetch>, ghost verdicts: seq<bool>, ghost flags: seq<bool>)
    returns (names: seq<string>, registry: map<string, Route>, known: seq<Known>)
    requires Describes(native, NativesOf(f)) && linked == LinkedOf(f) && |flags| == |native|
    requires forall p :: 0 <= p < |native| ==> native[p].duplicate == flags[p]
    requires |verdicts| == |AllNatives(before)| && registry0 == Registry(AllNatives(before), verdicts)
    requires Lists(names0, registry0) && known0 == KnownOf(before)
    ensures registry == Registry(AllNatives(before) + NativesOf(f), verdicts + flags)
    ensures Lists(names, registry) && known == KnownOf(before + [f])
  {
    var table;
    names, registry, table := RegisterNatives(native, names0, registry0, AllNatives(before), verdicts, NativesOf(f), flags);
    table := AddLinked(table, linked, NativesOf(f));
    InitSnoc(before, f);
    known := if f.roster.Some? then known0 + [Known(f.hub, table)] else known0;
  }

  /** What hub h's turn may rely on: its natives carry the verdicts of their stretch of the list. */
  lemma VerdictsOfHub(fetches: seq<Fetch>, h: int, all: seq<Entry>, natives: seq<seq<Entry>>, linked: seq<seq<Device>>,
                      flags: seq<bool>) returns (n: int, m: int)
    requires 0 <= h < |fetches| && Laid(fetches, all, natives, linked) && |flags| == |all|
    requires forall i :: 0 <= i < |all| ==> all[i].duplicate == flags[i]
    ensures |natives| == |linked| == |fetches|
    ensures Describes(natives[h], NativesOf(fetches[h])) && linked[h] == LinkedOf(fetches[h])
    ensures 0 <= n == |AllNatives(fetches[..h])| && n + |natives[h]| == m <= |flags|
    ensures flags[..n] + flags[n..m] == flags[..m]
    ensures forall p :: 0 <= p < |natives[h]| ==> natives[h][p].duplicate == flags[n..m][p]
    ensures fetches[..h + 1] == fetches[..h] + [fetches[h]]
    ensures AllNatives(fetches[..h + 1]) == AllNatives(fetches[..h]) + NativesOf(fetches[h])
    ensures |AllNatives(fetches[..h + 1])| == m
  {
    n := LaidUpTo(fetches, h, all, natives, linked);
    m := n + |natives[h]|;
    assert forall p :: 0 <= p < |natives[h]| ==> natives[h][p] == all[n..m][p];
  }

  method BuildTable(fetches: seq<Fetch>, ghost all: seq<Entry>, natives: seq<seq<Entry>>, linked: seq<seq<Device>>,
                    ghost flags: seq<bool>)
    returns (routes: seq<Routing>)
    requires Laid(fetches, all, natives, linked) && |flags| == |all| == |AllNatives(fetches)|
    requires forall i :: 0 <= i < |all| ==> all[i].duplicate == flags[i]
    ensures IsRouting(routes, Registry(AllNatives(fetches), flags), KnownOf(fetches))
  {
    var names: seq<string>, registry: map<string, Route>, known: seq<Known> := [], map[], [];
    ghost var n := 0;
    for h := 0 to |fetches|
      invariant 0 <= n == |AllNatives(fetches[..h])| <= |flags|
      invariant registry == Registry(AllNatives(fetches[..h]), flags[..n])
      invariant Lists(names, registry) && known == KnownOf(fetches[..h])
    {
      ghost var n', m := VerdictsOfHub(fetches, h, all, natives, linked, flags);
      names, registry, known := RegisterHub(fetches[h], natives[h], linked[h], names, registry, known,
                                            fetches[..h], flags[..n], flags[n..m]);
      n := m;
    }
    assert fetches[..|fetches|] == fetches && flags[..n] == flags;
    routes := BuildRoutes(names, registry, known);
  }
}
