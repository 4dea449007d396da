/**
  The self-healing watchdog of services/matter_watchdog.py: each sweep lists the unavailable nodes and
  re-interviews a few of them, never one node twice within the cooldown, and gives a node up after
  three failed interviews in a row.
  */
module MatterWatchdog {
  import opened Prelude

  const REINTERVIEW_COOLDOWN_SECS := 300.0
  const MAX_REINTERVIEWS_PER_SWEEP := 2
  const STALE_AFTER_FAILS := 3

  datatype Node = Node(id: int, available: Option<bool>, isOnline: Option<bool>) {
    /** The server's availability flag, or its online flag where that is missing, says a plain no. */
    predicate Unavailable() {
      (if available.None? then isOnline else available) == Some(false)
    }
  }

  /** What the server answers to one sweep. */
  datatype Answer = Unreachable | ListFailed | Listed(nodes: seq<Node>)

  /** What the watchdog has seen and done: a completed scan, or one re-interview. */
  datatype Event = Scan(unavailable: seq<int>) | Heal(node: int, at: real, ok: bool)

  /** candidates: nodes given up on; healedAt: last re-interview; fails: failed ones in a row. */
  datatype Tables = Tables(candidates: seq<int>, healedAt: map<int, real>, fails: map<int, nat>, log: seq<Event>) {
    function Fails(n: int): nat { if n in fails then fails[n] else 0 }
    function HealedAt(n: int): real { if n in healedAt then healedAt[n] else 0.0 }
  }

  const BOOT := Tables([], map[], map[], [])

  // ---------------------------------------------------------------------------------------------
  // One sweep
  // ---------------------------------------------------------------------------------------------

  function UnavailableIds(nodes: seq<Node>): seq<int> {
    if nodes == [] then []
    else UnavailableIds(Init(nodes)) + if Last(nodes).Unavailable() then [Last(nodes).id] else []
  }

  /** The server said a plain no about the node: by its availability flag, or by its online flag where that is
      missing. A node with neither is not listed. */
  predicate SaidNo(node: Node) {
    node.available == Some(false) || (node.available == None && node.isOnline == Some(false))
  }

  lemma {:induction false} IdAt(nodes: seq<Node>, a: nat)
    ensures |UnavailableIds(nodes)| == |Positions(nodes, SaidNo)|
    ensures a < |Positions(nodes, SaidNo)| ==>
              var k := Positions(nodes, SaidNo)[a]; 0 <= k < |nodes| && UnavailableIds(nodes)[a] == nodes[k].id
  {
    if nodes != [] {
      IdAt(Init(nodes), a);
    }
  }

  /** The list holds the ids of exactly the nodes said no about, in the order of the answer. */
  lemma ListsThoseSaidNo(nodes: seq<Node>)
    ensures var ps, ids := Positions(nodes, SaidNo), UnavailableIds(nodes);
            && PositionsOf(nodes, SaidNo, ps) && |ids| == |ps|
            && forall a :: 0 <= a < |ps| ==> 0 <= ps[a] < |nodes| && ids[a] == nodes[ps[a]].id
  {
    PositionsAre(nodes, SaidNo);
    forall a: nat
      ensures |UnavailableIds(nodes)| == |Positions(nodes, SaidNo)|
      ensures a < |Positions(nodes, SaidNo)| ==>
                var k := Positions(nodes, SaidNo)[a]; 0 <= k < |nodes| && UnavailableIds(nodes)[a] == nodes[k].id
    {
      IdAt(nodes, a);
    }
  }

  lemma IdsAreThoseSaidNo(nodes: seq<Node>)
    ensures forall n :: n in UnavailableIds(nodes) <==> exists k :: 0 <= k < |nodes| && SaidNo(nodes[k]) && nodes[k].id == n
  {
    var ps := Positions(nodes, SaidNo);
    ListsThoseSaidNo(nodes);
    forall n ensures n in UnavailableIds(nodes) <==> exists k :: 0 <= k < |nodes| && SaidNo(nodes[k]) && nodes[k].id == n {
      if k :| 0 <= k < |nodes| && SaidNo(nodes[k]) && nodes[k].id == n {
        var a :| 0 <= a < |ps| && ps[a] == k;
        assert UnavailableIds(nodes)[a] == n;
      }
      if n in UnavailableIds(nodes) {
        var a :| 0 <= a < |ps| && UnavailableIds(nodes)[a] == n;
        assert ps[a] in ps;
      }
    }
  }

  function KeepIn(xs: seq<int>, kept: seq<int>): seq<int> {
    if xs == [] then [] else KeepIn(Init(xs), kept) + if Last(xs) in kept then [Last(xs)] else []
  }

  /** Forget what is recorded against nodes that are not unavailable any more. */
  function AfterScan(t: Tables, us: seq<int>): Tables {
    Tables(KeepIn(t.candidates, us), t.healedAt, map n | n in t.fails && n in us :: t.fails[n], t.log + [Scan(us)])
  }

  function AfterHeal(t: Tables, n: int, now: real, ok: bool): Tables {
    var fails := t.Fails(n) + 1;
    Tables(
      if !ok && fails >= STALE_AFTER_FAILS && n !in t.candidates then t.candidates + [n] else t.candidates,
      t.healedAt[n := now],
      if ok then t.fails - {n} else t.fails[n := fails],
      t.log + [Heal(n, now, ok)])
  }

  predicate CoolingDown(t: Tables, n: int, now: real) {
    now - t.HealedAt(n) < REINTERVIEW_COOLDOWN_SECS
  }

  function HealLoop(t: Tables, us: seq<int>, now: real, healed: nat, ok: int -> bool): Tables
    decreases |us|
  {
    if us == [] then t
    else if us[0] in t.candidates then HealLoop(t, us[1..], now, healed, ok)
    else if healed >= MAX_REINTERVIEWS_PER_SWEEP then t
    else if CoolingDown(t, us[0], now) then HealLoop(t, us[1..], now, healed, ok)
    else HealLoop(AfterHeal(t, us[0], now, ok(us[0])), us[1..], now, healed + 1, ok)
  }

  function Sweep(t: Tables, us: seq<int>, now: real, ok: int -> bool): Tables {
    HealLoop(AfterScan(t, us), us, now, 0, ok)
  }

  // ---------------------------------------------------------------------------------------------
  // What the tables say about the log
  // ---------------------------------------------------------------------------------------------

  /** Failed heals of a node in a row, since it was last healed or seen available. */
  function FailRun(log: seq<Event>, n: int): nat {
    if log == [] then 0
    else match Last(log)
      case Scan(us) => if n in us then FailRun(Init(log), n) else 0
      case Heal(m, _, ok) =>
        if m != n then FailRun(Init(log), n) else if ok then 0 else FailRun(Init(log), n) + 1
  }

  function LastHeal(log: seq<Event>, n: int): Option<real> {
    if log == [] then None
    else if Last(log).Heal? && Last(log).node == n then Some(Last(log).at)
    else LastHeal(Init(log), n)
  }

  /** Heals of one node are a cooldown apart. */
  ghost predicate Paced(log: seq<Event>) {
    forall i, j :: 0 <= i < j < |log| && log[i].Heal? && log[j].Heal? && log[i].node == log[j].node ==>
      log[j].at - log[i].at >= REINTERVIEW_COOLDOWN_SECS
  }

  /** What is recorded about one node is exactly what the log implies. */
  ghost predicate SoundFor(t: Tables, n: int) {
    && t.Fails(n) == FailRun(t.log, n) <= STALE_AFTER_FAILS
    && (n in t.candidates <==> FailRun(t.log, n) == STALE_AFTER_FAILS)
    && (if n in t.healedAt then LastHeal(t.log, n) == Some(t.healedAt[n]) else LastHeal(t.log, n) == None)
  }

  ghost predicate Sound(t: Tables) {
    && (forall n :: SoundFor(t, n))
    && NoDup(t.candidates)
    && Paced(t.log)
  }

  lemma {:induction false} KeepInFilters(xs: seq<int>, kept: seq<int>)
    ensures forall n :: n in KeepIn(xs, kept) <==> n in xs && n in kept
    ensures NoDup(xs) ==> NoDup(KeepIn(xs, kept))
  {
    if xs != [] {
      KeepInFilters(Init(xs), kept);
      assert xs == Init(xs) + [Last(xs)];
      if NoDup(xs) {
        assert NoDup(Init(xs));
        assert Last(xs) !in Init(xs);
      }
    }
  }

  lemma {:induction false} KeepInKeepsOrder(xs: seq<int>, kept: seq<int>)
    ensures InOrder(KeepIn(xs, kept), xs)
  {
    if xs != [] {
      var before := KeepIn(Init(xs), kept);
      KeepInKeepsOrder(Init(xs), kept);
      InitSnoc(before, Last(xs));
      assert before + [] == before;
    }
  }

  lemma {:induction false} LastHealBounds(log: seq<Event>, n: int, i: nat)
    requires Paced(log) && i < |log| && log[i].Heal? && log[i].node == n
    ensures LastHeal(log, n).Some? && LastHeal(log, n).value >= log[i].at
  {
    if i == |log| - 1 {
    } else {
      assert Init(log)[i] == log[i];
      if !(Last(log).Heal? && Last(log).node == n) {
        assert Paced(Init(log)) by {
          forall k | 0 <= k < |Init(log)| ensures Init(log)[k] == log[k] {}
        }
        LastHealBounds(Init(log), n, i);
      }
    }
  }

  lemma CandidatesFailedThrice(t: Tables)
    requires Sound(t)
    ensures forall n :: n in t.candidates <==> FailRun(t.log, n) == STALE_AFTER_FAILS
  {
    forall n ensures n in t.candidates <==> FailRun(t.log, n) == STALE_AFTER_FAILS {
      assert SoundFor(t, n);
    }
  }

  lemma ScanKeepsSound(t: Tables, us: seq<int>)
    requires Sound(t)
    ensures Sound(AfterScan(t, us))
    ensures forall n :: n in AfterScan(t, us).candidates ==> n in us
  {
    var t' := AfterScan(t, us);
    assert Init(t'.log) == t.log;
    KeepInFilters(t.candidates, us);
    forall n ensures SoundFor(t', n) {
      assert SoundFor(t, n);
    }
  }

  lemma HealKeepsSound(t: Tables, n: int, now: real, ok: bool)
    requires Sound(t) && n !in t.candidates && !CoolingDown(t, n, now)
    ensures Sound(AfterHeal(t, n, now, ok))
  {
    var t' := AfterHeal(t, n, now, ok);
    assert Init(t'.log) == t.log;
    assert SoundFor(t, n);
    forall m ensures SoundFor(t', m) {
      assert SoundFor(t, m);
    }
    forall i, j | 0 <= i < j < |t'.log| && t'.log[i].Heal? && t'.log[j].Heal? && t'.log[i].node == t'.log[j].node
      ensures t'.log[j].at - t'.log[i].at >= REINTERVIEW_COOLDOWN_SECS
    {
      if j == |t.log| {
        LastHealBounds(t.log, n, i);
      }
    }
  }

  lemma {:induction false} HealLoopKeepsSound(t: Tables, us: seq<int>, now: real, healed: nat, ok: int -> bool)
    requires Sound(t)
    ensures Sound(HealLoop(t, us, now, healed, ok))
    decreases |us|
  {
    if us == [] {
    } else if us[0] in t.candidates {
      HealLoopKeepsSound(t, us[1..], now, healed, ok);
    } else if healed >= MAX_REINTERVIEWS_PER_SWEEP {
    } else if CoolingDown(t, us[0], now) {
      HealLoopKeepsSound(t, us[1..], now, healed, ok);
    } else {
      HealKeepsSound(t, us[0], now, ok(us[0]));
      HealLoopKeepsSound(AfterHeal(t, us[0], now, ok(us[0])), us[1..], now, healed + 1, ok);
    }
  }

  /** The loop only ever appends heals of listed nodes, at most as many as the sweep still allows, and
      gives up on listed nodes only. */
  lemma {:induction false} HealLoopAppends(t: Tables, us: seq<int>, now: real, healed: nat, ok: int -> bool)
    requires healed <= MAX_REINTERVIEWS_PER_SWEEP
    ensures var t' := HealLoop(t, us, now, healed, ok);
            && t.log <= t'.log
            && |t'.log| - |t.log| <= MAX_REINTERVIEWS_PER_SWEEP - healed
            && (forall n :: n in t'.candidates ==> n in t.candidates || n in us)
    decreases |us|
  {
    if us == [] {
    } else if us[0] in t.candidates {
      HealLoopAppends(t, us[1..], now, healed, ok);
    } else if healed >= MAX_REINTERVIEWS_PER_SWEEP {
    } else if CoolingDown(t, us[0], now) {
      HealLoopAppends(t, us[1..], now, healed, ok);
    } else {
      HealLoopAppends(AfterHeal(t, us[0], now, ok(us[0])), us[1..], now, healed + 1, ok);
    }
  }

  /** Sweeps that reached the server, with the unavailable nodes each found, its clock sample and the
      outcome every interview would have. */
  datatype Pass = Pass(unavailable: seq<int>, now: real, ok: int -> bool)

  function Run(t: Tables, ps: seq<Pass>): Tables {
    if ps == [] then t
    else
      var p := Last(ps);
      Sweep(Run(t, Init(ps)), p.unavailable, p.now, p.ok)
  }

  /** After any run: the candidates are exactly the nodes whose last three heals in a row failed, all of
      them unavailable in the latest scan; heals of a node are always a cooldown apart. */
  lemma {:induction false} RunIsSound(ps: seq<Pass>)
    ensures Sound(Run(BOOT, ps))
    ensures forall n :: n in Run(BOOT, ps).candidates <==> FailRun(Run(BOOT, ps).log, n) == 3
    ensures var log := Run(BOOT, ps).log;
            forall i, j :: 0 <= i < j < |log| && log[i].Heal? && log[j].Heal? && log[i].node == log[j].node ==>
                             log[j].at - log[i].at >= 300.0
    ensures ps != [] ==>
              && (forall n :: n in Run(BOOT, ps).candidates ==> n in Last(ps).unavailable)
              && |Run(BOOT, ps).log| - |Run(BOOT, Init(ps)).log| <= 1 + 2
              && Run(BOOT, Init(ps)).log + [Scan(Last(ps).unavailable)] <= Run(BOOT, ps).log
  {
    if ps != [] {
      RunIsSound(Init(ps));
      var p := Last(ps);
      var t := AfterScan(Run(BOOT, Init(ps)), p.unavailable);
      ScanKeepsSound(Run(BOOT, Init(ps)), p.unavailable);
      HealLoopKeepsSound(t, p.unavailable, p.now, 0, p.ok);
      HealLoopAppends(t, p.unavailable, p.now, 0, p.ok);
    }
    assert Sound(Run(BOOT, ps));
    CandidatesFailedThrice(Run(BOOT, ps));
  }

  // ---------------------------------------------------------------------------------------------
  // Which nodes a sweep heals
  // ---------------------------------------------------------------------------------------------

  /** Neither given up on nor healed within the cooldown, in listed order. */
  function Eligible(t: Tables, us: seq<int>, now: real): seq<int> {
    if us == [] then []
    else (if us[0] in t.candidates || CoolingDown(t, us[0], now) then [] else [us[0]]) + Eligible(t, us[1..], now)
  }

  function Take(xs: seq<int>, n: nat): seq<int> {
    if |xs| <= n then xs else xs[..n]
  }

  function Heals(ns: seq<int>, now: real, ok: int -> bool): seq<Event> {
    if ns == [] then [] else [Heal(ns[0], now, ok(ns[0]))] + Heals(ns[1..], now, ok)
  }

  lemma {:induction false} OtherNodesStayEligible(t: Tables, n: int, us: seq<int>, now: real, ok: bool)
    requires n !in us
    ensures Eligible(AfterHeal(t, n, now, ok), us, now) == Eligible(t, us, now)
  {
    if us != [] {
      OtherNodesStayEligible(t, n, us[1..], now, ok);
    }
  }

  /** The heals a sweep still allowed `left` heals appends. */
  function Due(t: Tables, us: seq<int>, now: real, left: nat, ok: int -> bool): seq<Event> {
    Heals(Take(Eligible(t, us, now), left), now, ok)
  }

  lemma DueSkips(t: Tables, us: seq<int>, now: real, left: nat, ok: int -> bool)
    requires us != [] && (us[0] in t.candidates || CoolingDown(t, us[0], now))
    ensures Due(t, us, now, left, ok) == Due(t, us[1..], now, left, ok)
  {
    assert Eligible(t, us, now) == Eligible(t, us[1..], now);
  }

  lemma DueHeals(t: Tables, t': Tables, us: seq<int>, now: real, left: nat, ok: int -> bool)
    requires us != [] && !(us[0] in t.candidates || CoolingDown(t, us[0], now))
    requires Eligible(t', us[1..], now) == Eligible(t, us[1..], now)
    ensures Due(t, us, now, left + 1, ok) == [Heal(us[0], now, ok(us[0]))] + Due(t', us[1..], now, left, ok)
  {
    var later := Eligible(t, us[1..], now);
    assert Eligible(t, us, now) == [us[0]] + later;
    HealsSplit(us[0], later, left, now, ok);
  }

  lemma HealsSplit(n: int, later: seq<int>, left: nat, now: real, ok: int -> bool)
    ensures Heals(Take([n] + later, left + 1), now, ok) == [Heal(n, now, ok(n))] + Heals(Take(later, left), now, ok)
  {
    assert Take([n] + later, left + 1) == [n] + Take(later, left);
  }

  lemma HealThenRest(t: Tables, us: seq<int>, now: real, left: nat, ok: int -> bool)
    requires us != [] && !(us[0] in t.candidates || CoolingDown(t, us[0], now)) && us[0] !in us[1..]
    ensures var t' := AfterHeal(t, us[0], now, ok(us[0]));
            t'.log + Due(t', us[1..], now, left, ok) == t.log + Due(t, us, now, left + 1, ok)
  {
    var t' := AfterHeal(t, us[0], now, ok(us[0]));
    OtherNodesStayEligible(t, us[0], us[1..], now, ok(us[0]));
    DueHeals(t, t', us, now, left, ok);
    AppendInTwoSteps(t.log, Heal(us[0], now, ok(us[0])), Due(t', us[1..], now, left, ok));
  }

  lemma AppendInTwoSteps(log: seq<Event>, e: Event, rest: seq<Event>)
    ensures (log + [e]) + rest == log + ([e] + rest)
  {
  }

  /** The loop heals the first eligible nodes of the list, as many as the sweep still allows, and no others. */
  lemma {:induction false} HealsFirstEligible(t: Tables, us: seq<int>, now: real, healed: nat, ok: int -> bool)
    requires NoDup(us) && healed <= MAX_REINTERVIEWS_PER_SWEEP
    ensures HealLoop(t, us, now, healed, ok).log == t.log + Due(t, us, now, MAX_REINTERVIEWS_PER_SWEEP - healed, ok)
    decreases |us|
  {
    var left := MAX_REINTERVIEWS_PER_SWEEP - healed;
    if us == [] || (healed == MAX_REINTERVIEWS_PER_SWEEP && us[0] !in t.candidates) {
      assert Due(t, us, now, left, ok) == [];
    } else {
      assert NoDup(us[1..]) && us[0] !in us[1..];
      if us[0] in t.candidates || CoolingDown(t, us[0], now) {
        HealsFirstEligible(t, us[1..], now, healed, ok);
        DueSkips(t, us, now, left, ok);
      } else {
        HealsFirstEligible(AfterHeal(t, us[0], now, ok(us[0])), us[1..], now, healed + 1, ok);
        HealThenRest(t, us, now, left - 1, ok);
      }
    }
  }

  // ---------------------------------------------------------------------------------------------
  // Convergence
  // ---------------------------------------------------------------------------------------------

  /** Failed interviews the nodes still have before all of them are given up on. */
  function Remaining(t: Tables, nodes: seq<int>): int {
    if nodes == [] then 0 else STALE_AFTER_FAILS - t.Fails(nodes[0]) + Remaining(t, nodes[1..])
  }

  /** The pass finds exactly these nodes unavailable and every interview fails. */
  ghost predicate AllFail(nodes: seq<int>, p: Pass) {
    && NoDup(p.unavailable)
    && (forall n :: n in p.unavailable <==> n in nodes)
    && (forall n :: !p.ok(n))
  }

  lemma {:induction false} RemainingDependsOnFails(t: Tables, t': Tables, nodes: seq<int>)
    requires forall n :: n in nodes ==> t.Fails(n) == t'.Fails(n)
    ensures Remaining(t, nodes) == Remaining(t', nodes)
  {
    if nodes != [] {
      RemainingDependsOnFails(t, t', nodes[1..]);
    }
  }

  lemma {:induction false} FailedHealCostsOne(t: Tables, n: int, now: real, nodes: seq<int>)
    requires NoDup(nodes) && n in nodes
    ensures Remaining(AfterHeal(t, n, now, false), nodes) == Remaining(t, nodes) - 1
  {
    var rest := nodes[1..];
    assert NoDup(rest) && nodes[0] !in rest;
    if nodes[0] == n {
      RemainingDependsOnFails(t, AfterHeal(t, n, now, false), rest);
    } else {
      FailedHealCostsOne(t, n, now, rest);
    }
  }

  lemma {:induction false} FailedHealLoopCosts(t: Tables, us: seq<int>, now: real, healed: nat, ok: int -> bool, nodes: seq<int>)
    requires NoDup(nodes) && (forall n :: n in us ==> n in nodes) && (forall n :: !ok(n))
    ensures var t' := HealLoop(t, us, now, healed, ok);
            Remaining(t', nodes) == Remaining(t, nodes) - (|t'.log| - |t.log|)
    decreases |us|
  {
    if us != [] {
      if us[0] in t.candidates {
        FailedHealLoopCosts(t, us[1..], now, healed, ok, nodes);
      } else if healed < MAX_REINTERVIEWS_PER_SWEEP {
        if CoolingDown(t, us[0], now) {
          FailedHealLoopCosts(t, us[1..], now, healed, ok, nodes);
        } else {
          FailedHealCostsOne(t, us[0], now, nodes);
          FailedHealLoopCosts(AfterHeal(t, us[0], now, ok(us[0])), us[1..], now, healed + 1, ok, nodes);
        }
      }
    }
  }

  lemma {:induction false} RemainingBounds(t: Tables, nodes: seq<int>)
    requires Sound(t)
    ensures 0 <= Remaining(t, nodes) <= STALE_AFTER_FAILS * |nodes|
    ensures Remaining(t, nodes) == 0 <==> forall n :: n in nodes ==> n in t.candidates
    ensures (forall n :: n in nodes ==> t.Fails(n) == 0) ==> Remaining(t, nodes) == STALE_AFTER_FAILS * |nodes|
  {
    if nodes != [] {
      RemainingBounds(t, nodes[1..]);
      assert SoundFor(t, nodes[0]);
      assert forall n :: n in nodes <==> n == nodes[0] || n in nodes[1..];
    }
  }

  /** A pass has something to heal. */
  ghost predicate Productive(t: Tables, p: Pass) {
    Eligible(AfterScan(t, p.unavailable), p.unavailable, p.now) != []
  }

  /** Passes of the run that find an eligible node. */
  ghost function ProductivePasses(t: Tables, ps: seq<Pass>): nat {
    if ps == [] then 0
    else ProductivePasses(t, Init(ps)) + if Productive(Run(t, Init(ps)), Last(ps)) then 1 else 0
  }

  function HealCount(log: seq<Event>): nat {
    if log == [] then 0 else HealCount(Init(log)) + if Last(log).Heal? then 1 else 0
  }

  lemma {:induction false} HealCountOfHeals(log: seq<Event>, ns: seq<int>, now: real, ok: int -> bool)
    ensures HealCount(log + Heals(ns, now, ok)) == HealCount(log) + |ns|
    decreases |ns|
  {
    if ns == [] {
      assert log + Heals(ns, now, ok) == log;
    } else {
      var first := Heal(ns[0], now, ok(ns[0]));
      assert log + Heals(ns, now, ok) == (log + [first]) + Heals(ns[1..], now, ok);
      assert Init(log + [first]) == log;
      HealCountOfHeals(log + [first], ns[1..], now, ok);
    }
  }

  /** One pass over failing nodes: every heal costs one, a pass with an eligible node heals one or two. */
  lemma FailingPass(t: Tables, p: Pass, nodes: seq<int>)
    requires Sound(t) && NoDup(nodes) && AllFail(nodes, p)
    ensures var t' := Sweep(t, p.unavailable, p.now, p.ok);
            var heals := HealCount(t'.log) - HealCount(t.log);
            && Sound(t')
            && heals == Remaining(t, nodes) - Remaining(t', nodes)
            && heals == |Take(Eligible(AfterScan(t, p.unavailable), p.unavailable, p.now), MAX_REINTERVIEWS_PER_SWEEP)|
            && (forall n :: n in t'.candidates ==> n in nodes)
            && (forall n :: n in t'.fails ==> n in nodes)
  {
    var us := p.unavailable;
    var scanned := AfterScan(t, us);
    var t' := Sweep(t, us, p.now, p.ok);
    ScanKeepsSound(t, us);
    HealLoopKeepsSound(scanned, us, p.now, 0, p.ok);
    HealLoopAppends(scanned, us, p.now, 0, p.ok);
    RemainingDependsOnFails(t, scanned, nodes);
    FailedHealLoopCosts(scanned, us, p.now, 0, p.ok, nodes);
    HealsFirstEligible(scanned, us, p.now, 0, p.ok);
    HealCountOfHeals(scanned.log, Take(Eligible(scanned, us, p.now), MAX_REINTERVIEWS_PER_SWEEP), p.now, p.ok);
    assert Init(scanned.log) == t.log;
    FailsOfListedOnly(scanned, us, p.now, 0, p.ok, nodes);
  }

  lemma {:induction false} FailsOfListedOnly(t: Tables, us: seq<int>, now: real, healed: nat, ok: int -> bool, nodes: seq<int>)
    requires (forall n :: n in us ==> n in nodes) && (forall n :: n in t.fails ==> n in nodes)
    ensures forall n :: n in HealLoop(t, us, now, healed, ok).fails ==> n in nodes
    decreases |us|
  {
    if us != [] {
      if us[0] in t.candidates || (healed < MAX_REINTERVIEWS_PER_SWEEP && CoolingDown(t, us[0], now)) {
        FailsOfListedOnly(t, us[1..], now, healed, ok, nodes);
      } else if healed < MAX_REINTERVIEWS_PER_SWEEP {
        FailsOfListedOnly(AfterHeal(t, us[0], now, ok(us[0])), us[1..], now, healed + 1, ok, nodes);
      }
    }
  }

  /** Failures are recorded against these nodes only. */
  ghost predicate OnlyAbout(t: Tables, nodes: seq<int>) {
    (forall n :: n in t.candidates ==> n in nodes) && (forall n :: n in t.fails ==> n in nodes)
  }

  /** Any number of such passes, whatever was recorded before them. */
  lemma {:induction false} FailingRun(t: Tables, ps: seq<Pass>, nodes: seq<int>)
    requires Sound(t) && NoDup(nodes) && forall i :: 0 <= i < |ps| ==> AllFail(nodes, ps[i])
    ensures var t' := Run(t, ps);
            var heals := HealCount(t'.log) - HealCount(t.log);
            && Sound(t')
            && heals == Remaining(t, nodes) - Remaining(t', nodes)
            && ProductivePasses(t, ps) <= heals <= MAX_REINTERVIEWS_PER_SWEEP * ProductivePasses(t, ps)
            && (ps != [] || OnlyAbout(t, nodes) ==> OnlyAbout(t', nodes))
  {
    if ps != [] {
      FailingRun(t, Init(ps), nodes);
      assert AllFail(nodes, Last(ps));
      FailingPass(Run(t, Init(ps)), Last(ps), nodes);
    }
  }

  /** With a fixed set of unavailable nodes and every interview failing, from any sound tables: the run has given
      up on exactly these nodes when it has made as many heals as remained, which it never exceeds; as many
      passes that find an eligible node are enough for that. */
  lemma GivesUpAfterRemainingHeals(t: Tables, ps: seq<Pass>, nodes: seq<int>)
    requires Sound(t) && NoDup(nodes) && forall i :: 0 <= i < |ps| ==> AllFail(nodes, ps[i])
    requires ps != [] || OnlyAbout(t, nodes)
    ensures var t' := Run(t, ps);
            var heals := HealCount(t'.log) - HealCount(t.log);
            && heals <= Remaining(t, nodes) <= STALE_AFTER_FAILS * |nodes|
            && ProductivePasses(t, ps) <= Remaining(t, nodes)
            && (heals == Remaining(t, nodes) <==> forall n :: n in nodes <==> n in t'.candidates)
            && (ProductivePasses(t, ps) == Remaining(t, nodes) ==> forall n :: n in nodes <==> n in t'.candidates)
  {
    FailingRun(t, ps, nodes);
    RemainingBounds(t, nodes);
    RemainingBounds(Run(t, ps), nodes);
  }

  /** With nothing recorded against the nodes that is three heals each. */
  lemma GivesUpOnAllAfterThreeHealsEach(t: Tables, ps: seq<Pass>, nodes: seq<int>)
    requires Sound(t) && (ps != [] || OnlyAbout(t, nodes)) && forall n :: n in nodes ==> t.Fails(n) == 0
    requires NoDup(nodes) && forall i :: 0 <= i < |ps| ==> AllFail(nodes, ps[i])
    ensures var t' := Run(t, ps);
            var heals := HealCount(t'.log) - HealCount(t.log);
            && heals <= STALE_AFTER_FAILS * |nodes|
            && ProductivePasses(t, ps) <= STALE_AFTER_FAILS * |nodes|
            && (heals == STALE_AFTER_FAILS * |nodes| <==> forall n :: n in nodes <==> n in t'.candidates)
            && (ProductivePasses(t, ps) == STALE_AFTER_FAILS * |nodes| ==> forall n :: n in nodes <==> n in t'.candidates)
  {
    GivesUpAfterRemainingHeals(t, ps, nodes);
    RemainingBounds(t, nodes);
  }

  /** Which nodes a sweep may heal, read off the log alone: those listed that have not failed three heals in a row
      and whose last heal is 300 s old. A node never healed counts as healed at clock 0, so it waits until the clock
      is past 300 s. */
  lemma {:induction false} EligibleByTheLog(t: Tables, us: seq<int>, now: real, n: int)
    requires Sound(t)
    ensures n in Eligible(t, us, now) <==>
              n in us && FailRun(t.log, n) != 3 && now - LastHeal(t.log, n).GetOr(0.0) >= 300.0
  {
    assert SoundFor(t, n);
    if us != [] {
      EligibleByTheLog(t, us[1..], now, n);
      assert n in us <==> n == us[0] || n in us[1..];
    }
  }

  /** They are healed in the order of the list. */
  lemma {:induction false} EligibleInListedOrder(t: Tables, us: seq<int>, now: real) returns (ps: seq<int>)
    ensures |ps| == |Eligible(t, us, now)| && forall a, b :: 0 <= a < b < |ps| ==> ps[a] < ps[b]
    ensures forall a :: 0 <= a < |ps| ==> 0 <= ps[a] < |us| && Eligible(t, us, now)[a] == us[ps[a]]
  {
    ps := [];
    if us != [] {
      var qs := EligibleInListedOrder(t, us[1..], now);
      var later := seq(|qs|, a requires 0 <= a < |qs| => qs[a] + 1);
      ps := if us[0] in t.candidates || CoolingDown(t, us[0], now) then later else [0] + later;
    }
  }

  /** A pass finds nothing to heal exactly when every listed node is given up on or cooling down. */
  lemma {:induction false} IdleOnlyWhenGivenUpOrCooling(t: Tables, us: seq<int>, now: real)
    ensures Eligible(t, us, now) == [] <==>
              forall n :: n in us ==> n in t.candidates || now - (if n in t.healedAt then t.healedAt[n] else 0.0) < 300.0
  {
    if us != [] {
      IdleOnlyWhenGivenUpOrCooling(t, us[1..], now);
      assert forall n :: n in us <==> n == us[0] || n in us[1..];
    }
  }

  // ---------------------------------------------------------------------------------------------
  // How long it takes
  // ---------------------------------------------------------------------------------------------

  /** Given up on, or healed within the cooldown. */
  ghost predicate Settled(t: Tables, n: int, now: real) {
    n in t.candidates || CoolingDown(t, n, now)
  }

  /** To one node the loop does nothing, or it heals it now; with every interview failing, that counts. */
  lemma {:induction false} LoopOnNode(t: Tables, us: seq<int>, now: real, healed: nat, ok: int -> bool, n: int)
    requires forall m :: !ok(m)
    ensures var t' := HealLoop(t, us, now, healed, ok);
            && (n in t.candidates ==> n in t'.candidates)
            && ((t'.HealedAt(n) == t.HealedAt(n) && t'.Fails(n) == t.Fails(n))
                || (t'.HealedAt(n) == now && t'.Fails(n) >= t.Fails(n) + 1))
    decreases |us|
  {
    if us != [] {
      if us[0] in t.candidates || (healed < MAX_REINTERVIEWS_PER_SWEEP && CoolingDown(t, us[0], now)) {
        LoopOnNode(t, us[1..], now, healed, ok, n);
      } else if healed < MAX_REINTERVIEWS_PER_SWEEP {
        LoopOnNode(AfterHeal(t, us[0], now, ok(us[0])), us[1..], now, healed + 1, ok, n);
      }
    }
  }

  /** A loop that does not use up its heals leaves every listed node settled. */
  lemma {:induction false} LoopSettles(t: Tables, us: seq<int>, now: real, healed: nat, ok: int -> bool)
    requires healed <= MAX_REINTERVIEWS_PER_SWEEP && forall m :: !ok(m)
    requires |HealLoop(t, us, now, healed, ok).log| - |t.log| + healed < MAX_REINTERVIEWS_PER_SWEEP
    ensures forall n :: n in us ==> Settled(HealLoop(t, us, now, healed, ok), n, now)
    decreases |us|
  {
    if us != [] {
      var rest := us[1..];
      assert forall n :: n in us <==> n == us[0] || n in rest;
      if us[0] in t.candidates || CoolingDown(t, us[0], now) {
        HealLoopAppends(t, rest, now, healed, ok);
        LoopSettles(t, rest, now, healed, ok);
        LoopOnNode(t, rest, now, healed, ok, us[0]);
      } else {
        var t' := AfterHeal(t, us[0], now, ok(us[0]));
        HealLoopAppends(t, us, now, healed, ok);
        LoopSettles(t', rest, now, healed + 1, ok);
        LoopOnNode(t', rest, now, healed + 1, ok, us[0]);
      }
    }
  }

  /** What a pass over failing nodes does to one of them. */
  lemma PassOnNode(t: Tables, p: Pass, nodes: seq<int>, n: int)
    requires AllFail(nodes, p) && n in nodes
    ensures var t' := Sweep(t, p.unavailable, p.now, p.ok);
            || (t'.HealedAt(n) == t.HealedAt(n) && t'.Fails(n) == t.Fails(n))
            || (t'.HealedAt(n) == p.now && t'.Fails(n) >= t.Fails(n) + 1)
  {
    LoopOnNode(AfterScan(t, p.unavailable), p.unavailable, p.now, 0, p.ok, n);
  }

  /** A pass that does not take two heals off what remains leaves every node settled. */
  lemma SlackPassSettles(t: Tables, p: Pass, nodes: seq<int>)
    requires NoDup(nodes) && AllFail(nodes, p)
    requires var t' := Sweep(t, p.unavailable, p.now, p.ok); Remaining(t, nodes) - Remaining(t', nodes) < MAX_REINTERVIEWS_PER_SWEEP
    ensures forall n :: n in nodes ==> Settled(Sweep(t, p.unavailable, p.now, p.ok), n, p.now)
  {
    var scanned := AfterScan(t, p.unavailable);
    RemainingDependsOnFails(t, scanned, nodes);
    FailedHealLoopCosts(scanned, p.unavailable, p.now, 0, p.ok, nodes);
    LoopSettles(scanned, p.unavailable, p.now, 0, p.ok);
  }

  /** Every node has failed at least `level` times, and once more if healed after `mark`. */
  ghost predicate Reached(t: Tables, nodes: seq<int>, level: nat, mark: real) {
    forall n :: n in nodes ==> t.Fails(n) >= if t.HealedAt(n) > mark then level + 1 else level
  }

  lemma PassKeepsLevel(t: Tables, p: Pass, nodes: seq<int>, level: nat, mark: real)
    requires AllFail(nodes, p) && Reached(t, nodes, level, mark)
    ensures Reached(Sweep(t, p.unavailable, p.now, p.ok), nodes, level, mark)
  {
    forall n | n in nodes
      ensures var t' := Sweep(t, p.unavailable, p.now, p.ok);
              t'.Fails(n) >= if t'.HealedAt(n) > mark then level + 1 else level
    {
      PassOnNode(t, p, nodes, n);
    }
  }

  /** A pass with heals to spare, a cooldown after the mark, has taken every node one level up. */
  lemma SlackPassLifts(t: Tables, p: Pass, nodes: seq<int>, level: nat, mark: real)
    requires NoDup(nodes) && AllFail(nodes, p) && Reached(t, nodes, level, mark)
    requires mark + REINTERVIEW_COOLDOWN_SECS <= p.now && level < STALE_AFTER_FAILS
    requires Sound(Sweep(t, p.unavailable, p.now, p.ok))
    requires forall n :: n in nodes ==> t.HealedAt(n) <= p.now
    requires var t' := Sweep(t, p.unavailable, p.now, p.ok); Remaining(t, nodes) - Remaining(t', nodes) < MAX_REINTERVIEWS_PER_SWEEP
    ensures Reached(Sweep(t, p.unavailable, p.now, p.ok), nodes, level + 1, p.now)
  {
    var t' := Sweep(t, p.unavailable, p.now, p.ok);
    PassKeepsLevel(t, p, nodes, level, mark);
    SlackPassSettles(t, p, nodes);
    forall n | n in nodes
      ensures t'.Fails(n) >= level + 1 && t'.HealedAt(n) <= p.now
    {
      PassOnNode(t, p, nodes, n);
      assert Settled(t', n, p.now) && SoundFor(t', n);
    }
  }

  /** Passes that go on finding these nodes unavailable, none later than a period after the one before. */
  ghost predicate Patrol(nodes: seq<int>, ps: seq<Pass>, period: real) {
    && ps != [] && NoDup(nodes) && period >= 0.0
    && (forall i :: 0 <= i < |ps| ==> AllFail(nodes, ps[i]))
    && (forall i :: 0 < i < |ps| ==> ps[i - 1].now <= ps[i].now <= ps[i - 1].now + period)
  }

  /** secs, count times over. */
  function Times(count: int, secs: real): real {
    if count <= 0 then 0.0 else Times(count - 1, secs) + secs
  }

  lemma {:induction false} TimesGrow(a: int, b: int, secs: real)
    requires secs >= 0.0 && a <= b
    ensures Times(a, secs) <= Times(b, secs)
    decreases b - a
  {
    if a < b {
      TimesGrow(a, b - 1, secs);
    }
  }

  /** Seconds that busy passes account for: half a period for each heal since this much remained. */
  function BusySecs(t: Tables, nodes: seq<int>, remained: int, period: real): real {
    Times(remained - Remaining(t, nodes), period / 2.0)
  }

  lemma BusySecsGrow(t: Tables, t': Tables, nodes: seq<int>, remained: int, period: real)
    requires period >= 0.0 && Remaining(t', nodes) <= Remaining(t, nodes) <= remained
    ensures 0.0 <= BusySecs(t, nodes, remained, period) <= BusySecs(t', nodes, remained, period)
    ensures Remaining(t, nodes) - Remaining(t', nodes) >= 2 ==>
              BusySecs(t, nodes, remained, period) + period <= BusySecs(t', nodes, remained, period)
  {
    var half, a := period / 2.0, remained - Remaining(t, nodes);
    TimesGrow(0, a, half);
    TimesGrow(a, remained - Remaining(t', nodes), half);
    if Remaining(t, nodes) - Remaining(t', nodes) >= 2 {
      TimesGrow(a + 2, remained - Remaining(t', nodes), half);
      assert Times(a + 2, half) == Times(a + 1, half) + half;
    }
  }

  /** How far a patrol has got by its last pass: the level all nodes have reached, and a time account. base is
      the mark less what busy passes account for by then. */
  datatype Progress = Progress(level: nat, mark: real, base: real)

  /** What a patrol starts from: its first pass, the failures then remaining, its period, and the base of the
      account. */
  datatype Opening = Opening(start: real, remained: int, period: real, base: real)

  /** The level and its place in the account. */
  ghost predicate Levels(t: Tables, nodes: seq<int>, o: Opening, g: Progress) {
    && g.level <= STALE_AFTER_FAILS && o.period >= 0.0
    && Reached(t, nodes, g.level, g.mark)
    && (g.mark + REINTERVIEW_COOLDOWN_SECS <= o.start || g.mark <= g.base + BusySecs(t, nodes, o.remained, o.period))
    && g.base <= o.base + Times(g.level, REINTERVIEW_COOLDOWN_SECS + o.period)
  }

  /** The time account: waiting for the cooldown and busy passes explain how long this level has lasted. */
  ghost predicate Accounts(t: Tables, now: real, nodes: seq<int>, o: Opening, g: Progress) {
    && Levels(t, nodes, o, g)
    && (forall n :: n in nodes ==> t.HealedAt(n) <= now)
    && (g.level < STALE_AFTER_FAILS ==>
          now <= g.base + REINTERVIEW_COOLDOWN_SECS + BusySecs(t, nodes, o.remained, o.period))
  }

  /** One more pass, no later than a period after what the account allows, keeps the account. */
  lemma PassKeepsAccount(t: Tables, p: Pass, nodes: seq<int>, o: Opening, g: Progress) returns (h: Progress)
    requires NoDup(nodes) && AllFail(nodes, p) && o.start <= p.now && Levels(t, nodes, o, g)
    requires forall n :: n in nodes ==> t.HealedAt(n) <= p.now
    requires g.level < STALE_AFTER_FAILS ==>
               p.now <= g.base + REINTERVIEW_COOLDOWN_SECS + BusySecs(t, nodes, o.remained, o.period) + o.period
    requires Sound(Sweep(t, p.unavailable, p.now, p.ok))
    requires Remaining(Sweep(t, p.unavailable, p.now, p.ok), nodes) <= Remaining(t, nodes) <= o.remained
    ensures Accounts(Sweep(t, p.unavailable, p.now, p.ok), p.now, nodes, o, h)
  {
    var t' := Sweep(t, p.unavailable, p.now, p.ok);
    BusySecsGrow(t, t', nodes, o.remained, o.period);
    PassKeepsLevel(t, p, nodes, g.level, g.mark);
    forall n | n in nodes ensures t'.HealedAt(n) <= p.now {
      PassOnNode(t, p, nodes, n);
    }
    if g.level == STALE_AFTER_FAILS
      || Remaining(t, nodes) - Remaining(t', nodes) >= MAX_REINTERVIEWS_PER_SWEEP
      || p.now < g.mark + REINTERVIEW_COOLDOWN_SECS
    {
      h := g;
    } else {
      SlackPassLifts(t, p, nodes, g.level, g.mark);
      h := Progress(g.level + 1, p.now, p.now - BusySecs(t', nodes, o.remained, o.period));
    }
  }

  lemma PatrolBefore(nodes: seq<int>, ps: seq<Pass>, period: real)
    requires Patrol(nodes, ps, period)
    ensures AllFail(nodes, Last(ps)) && forall i :: 0 <= i < |Init(ps)| ==> AllFail(nodes, Init(ps)[i])
    ensures |ps| > 1 ==>
              && Patrol(nodes, Init(ps), period) && Init(ps)[0] == ps[0]
              && Last(Init(ps)).now <= Last(ps).now <= Last(Init(ps)).now + period
  {
    assert forall i :: 0 <= i < |Init(ps)| ==> Init(ps)[i] == ps[i];
  }

  /** What every pass of a patrol meets: sound tables, and no more left to fail afterwards. */
  lemma PatrolPass(t: Tables, ps: seq<Pass>, nodes: seq<int>, period: real)
    requires Sound(t) && Patrol(nodes, ps, period)
    ensures Sound(Run(t, ps))
    ensures Remaining(Run(t, ps), nodes) <= Remaining(Run(t, Init(ps)), nodes) <= Remaining(t, nodes)
  {
    PatrolBefore(nodes, ps, period);
    FailingRun(t, Init(ps), nodes);
    FailingPass(Run(t, Init(ps)), Last(ps), nodes);
  }

  lemma {:induction false} PatrolAccounts(t: Tables, ps: seq<Pass>, nodes: seq<int>, o: Opening, first: Progress)
    returns (g: Progress)
    requires Sound(t) && Patrol(nodes, ps, o.period) && o.start == ps[0].now && o.remained == Remaining(t, nodes)
    requires forall n :: n in nodes ==> t.HealedAt(n) <= o.start
    requires Levels(t, nodes, o, first) && o.start <= first.base + REINTERVIEW_COOLDOWN_SECS + o.period
    ensures Accounts(Run(t, ps), Last(ps).now, nodes, o, g)
    ensures ps[0].now <= Last(ps).now
  {
    var prev := Init(ps);
    PatrolBefore(nodes, ps, o.period);
    PatrolPass(t, ps, nodes, o.period);
    if |ps| == 1 {
      BusySecsGrow(t, t, nodes, o.remained, o.period);
      g := first;
    } else {
      g := PatrolAccounts(t, prev, nodes, o, first);
    }
    g := PassKeepsAccount(Run(t, prev), Last(ps), nodes, o, g);
  }

  lemma {:induction false} TimesIsProduct(count: nat, secs: real)
    ensures Times(count, secs) == count as real * secs
  {
    if count > 0 {
      TimesIsProduct(count - 1, secs);
      var n, fewer := count as real, (count - 1) as real;
      assert n == fewer + 1.0;
      assert n * secs == fewer * secs + secs;
    }
  }

  /** Short of the last level, a patrol has lasted three cooldowns, two periods and its busy passes at most,
      counted from the base. */
  lemma AccountIsBounded(t: Tables, now: real, nodes: seq<int>, o: Opening, g: Progress)
    requires Remaining(t, nodes) >= 0 && g.level < STALE_AFTER_FAILS && Accounts(t, now, nodes, o, g)
    ensures now <= o.base + 3.0 * REINTERVIEW_COOLDOWN_SECS + o.period + o.period + Times(o.remained, o.period / 2.0)
  {
    var level := REINTERVIEW_COOLDOWN_SECS + o.period;
    TimesGrow(o.remained - Remaining(t, nodes), o.remained, o.period / 2.0);
    TimesGrow(g.level, 2, level);
    assert Times(2, level) == Times(1, level) + level == level + level;
  }

  lemma LastLevelIsGivenUp(t: Tables, nodes: seq<int>, mark: real)
    requires Sound(t) && Reached(t, nodes, STALE_AFTER_FAILS, mark)
    ensures forall n :: n in nodes ==> n in t.candidates
  {
    forall n | n in nodes ensures n in t.candidates {
      assert SoundFor(t, n);
    }
  }

  /** A patrol that has outlasted its account has given up on exactly its nodes. */
  lemma OutlastedPatrolGivesUp(t: Tables, ps: seq<Pass>, nodes: seq<int>, o: Opening, first: Progress)
    requires Sound(t) && Patrol(nodes, ps, o.period) && o.start == ps[0].now && o.remained == Remaining(t, nodes)
    requires forall n :: n in nodes ==> t.HealedAt(n) <= o.start
    requires Levels(t, nodes, o, first) && o.start <= first.base + REINTERVIEW_COOLDOWN_SECS + o.period
    requires Last(ps).now >
             o.base + 3.0 * REINTERVIEW_COOLDOWN_SECS + o.period + o.period + Times(o.remained, o.period / 2.0)
    ensures forall n :: n in nodes <==> n in Run(t, ps).candidates
    ensures HealCount(Run(t, ps).log) - HealCount(t.log) == Remaining(t, nodes)
  {
    var t' := Run(t, ps);
    var g := PatrolAccounts(t, ps, nodes, o, first);
    GivesUpAfterRemainingHeals(t, ps, nodes);
    FailingRun(t, ps, nodes);
    RemainingBounds(t', nodes);
    if g.level < STALE_AFTER_FAILS {
      AccountIsBounded(t', Last(ps).now, nodes, o, g);
    }
    LastLevelIsGivenUp(t', nodes, g.mark);
  }

  /** How long a patrol needs when no node was healed within the cooldown before it: two cooldowns and a period,
      and half a period more for each heal that remains. */
  function GiveUpSecs(remaining: int, period: real): real {
    REINTERVIEW_COOLDOWN_SECS + REINTERVIEW_COOLDOWN_SECS + period + Times(remaining, period / 2.0)
  }

  /** From any sound tables, with passes at most a period apart, none of the nodes healed within the cooldown
      before the first pass, and every interview failing, exactly these nodes are given up on by any pass later
      than GiveUpSecs after the first, after exactly the heals that remained. */
  lemma GivesUpInTime(t: Tables, ps: seq<Pass>, nodes: seq<int>, period: real)
    requires Sound(t) && Patrol(nodes, ps, period)
    requires forall n :: n in nodes ==> t.HealedAt(n) <= ps[0].now - REINTERVIEW_COOLDOWN_SECS
    requires Last(ps).now - ps[0].now > GiveUpSecs(Remaining(t, nodes), period)
    ensures forall n :: n in nodes <==> n in Run(t, ps).candidates
    ensures HealCount(Run(t, ps).log) - HealCount(t.log) == Remaining(t, nodes)
  {
    var start := ps[0].now;
    var base := start - REINTERVIEW_COOLDOWN_SECS - period;
    OutlastedPatrolGivesUp(t, ps, nodes, Opening(start, Remaining(t, nodes), period, base),
                           Progress(0, start - REINTERVIEW_COOLDOWN_SECS, base));
  }

  /** Whenever the nodes were healed before, one cooldown and one period more are enough. */
  lemma GivesUpInTimeAfterAnyHeals(t: Tables, ps: seq<Pass>, nodes: seq<int>, period: real)
    requires Sound(t) && Patrol(nodes, ps, period)
    requires forall n :: n in nodes ==> t.HealedAt(n) <= ps[0].now
    requires Last(ps).now - ps[0].now >
             GiveUpSecs(Remaining(t, nodes), period) + REINTERVIEW_COOLDOWN_SECS + period
    ensures forall n :: n in nodes <==> n in Run(t, ps).candidates
    ensures HealCount(Run(t, ps).log) - HealCount(t.log) == Remaining(t, nodes)
  {
    var start := ps[0].now;
    BusySecsGrow(t, t, nodes, Remaining(t, nodes), period);
    OutlastedPatrolGivesUp(t, ps, nodes, Opening(start, Remaining(t, nodes), period, start), Progress(0, start, start));
  }

  lemma BootTables(nodes: seq<int>)
    ensures Sound(BOOT) && Remaining(BOOT, nodes) == STALE_AFTER_FAILS * |nodes|
  {
    RunIsSound([]);
    RemainingBounds(BOOT, nodes);
  }

  lemma GiveUpSecsAre(remaining: nat, period: real)
    ensures GiveUpSecs(remaining, period) == 600.0 + period + remaining as real * (period / 2.0)
  {
    TimesIsProduct(remaining, period / 2.0);
  }

  /** From boot, once the clock is past the cooldown: in seconds, 600 + period + 3 * |nodes| * period / 2. */
  lemma BootGivesUpInTime(ps: seq<Pass>, nodes: seq<int>, period: real)
    requires Patrol(nodes, ps, period) && ps[0].now >= REINTERVIEW_COOLDOWN_SECS
    requires Last(ps).now - ps[0].now > 600.0 + period + (STALE_AFTER_FAILS * |nodes|) as real * (period / 2.0)
    ensures forall n :: n in nodes <==> n in Run(BOOT, ps).candidates
  {
    BootTables(nodes);
    GiveUpSecsAre(STALE_AFTER_FAILS * |nodes|, period);
    GivesUpInTime(BOOT, ps, nodes, period);
  }

  // ---------------------------------------------------------------------------------------------
  // The watchdog
  // ---------------------------------------------------------------------------------------------

  class Watchdog {
    var connected: bool
    var nodesTotal: nat
    var nodesUnavailable: seq<int>
    var removalCandidates: seq<int>
    var reinterviewTs: map<int, real>
    var reinterviewFails: map<int, nat>
    ghost var log: seq<Event>

    ghost function Current(): Tables
      reads this
    {
      Tables(removalCandidates, reinterviewTs, reinterviewFails, log)
    }

    /** Follows from RunIsSound for the tables of every run. */
    ghost predicate Valid()
      reads this
    {
      Sound(Current())
    }

    constructor ()
      ensures Valid() && Current() == BOOT
    {
      connected, nodesTotal, nodesUnavailable := false, 0, [];
      removalCandidates, reinterviewTs, reinterviewFails, log := [], map[], map[], [];
    }

    /** One pass. ok(n) is how an interview of node n would end. */
    method SweepOnce(answer: Answer, now: real, ok: int -> bool)
      requires Valid()
      modifies this
      ensures Valid()
      ensures connected == !answer.Unreachable?
      ensures !answer.Listed? ==>
                Current() == old(Current()) && nodesUnavailable == old(nodesUnavailable) && nodesTotal == old(nodesTotal)
      ensures answer.Listed? ==>
                && nodesUnavailable == UnavailableIds(answer.nodes) && nodesTotal == |answer.nodes|
                && (forall n :: n in nodesUnavailable <==>
                      exists k :: 0 <= k < |answer.nodes| && SaidNo(answer.nodes[k]) && answer.nodes[k].id == n)
                && Current() == Sweep(old(Current()), nodesUnavailable, now, ok)
                && (forall n :: n in removalCandidates <==> FailRun(log, n) == STALE_AFTER_FAILS)
                && (forall n :: n in removalCandidates ==> n in nodesUnavailable)
    {
      connected := !answer.Unreachable?;
      if !answer.Listed? {
        return;
      }
      var unavailable := CollectUnavailable(answer.nodes);
      nodesTotal := |answer.nodes|;
      nodesUnavailable := unavailable;
      ScanKeepsSound(Current(), unavailable);
      ForgetRecovered(unavailable);
      HealLoopKeepsSound(Current(), unavailable, now, 0, ok);
      HealLoopAppends(Current(), unavailable, now, 0, ok);
      HealStale(unavailable, now, ok);
      CandidatesFailedThrice(Current());
    }

    method ForgetRecovered(unavailable: seq<int>)
      modifies this`removalCandidates, this`reinterviewFails, this`log
      ensures Current() == AfterScan(old(Current()), unavailable)
    {
      removalCandidates := Prune(removalCandidates, unavailable);
      reinterviewFails := map n | n in reinterviewFails && n in unavailable :: reinterviewFails[n];
      log := log + [Scan(unavailable)];
    }

    /** The bounded round of interviews. */
    method HealStale(unavailable: seq<int>, now: real, ok: int -> bool)
      modifies this`reinterviewTs, this`reinterviewFails, this`removalCandidates, this`log
      ensures Current() == HealLoop(old(Current()), unavailable, now, 0, ok)
    {
      var healed := 0;
      var i := 0;
      while i < |unavailable|
        invariant 0 <= i <= |unavailable| && healed <= MAX_REINTERVIEWS_PER_SWEEP
        invariant HealLoop(old(Current()), unavailable, now, 0, ok) ==
                    HealLoop(Current(), unavailable[i..], now, healed, ok)
      {
        var nid := unavailable[i];
        assert unavailable[i..][1..] == unavailable[i + 1..];
        i := i + 1;
        if nid in removalCandidates {
          continue;
        }
        if healed >= MAX_REINTERVIEWS_PER_SWEEP {
          break;
        }
        if now - (if nid in reinterviewTs then reinterviewTs[nid] else 0.0) < REINTERVIEW_COOLDOWN_SECS {
          continue;
        }
        healed := healed + 1;
        Interview(nid, now, ok(nid));
      }
    }

    /** Re-interview one node and record how it went. */
    method Interview(nid: int, now: real, succeeds: bool)
      modifies this`reinterviewTs, this`reinterviewFails, this`removalCandidates, this`log
      ensures Current() == AfterHeal(old(Current()), nid, now, succeeds)
    {
      reinterviewTs := reinterviewTs[nid := now];
      log := log + [Heal(nid, now, succeeds)];
      if succeeds {
        reinterviewFails := reinterviewFails - {nid};
      } else {
        var fails := (if nid in reinterviewFails then reinterviewFails[nid] else 0) + 1;
        reinterviewFails := reinterviewFails[nid := fails];
        if fails >= STALE_AFTER_FAILS && nid !in removalCandidates {
          removalCandidates := removalCandidates + [nid];
        }
      }
    }

    method CollectUnavailable(nodes: seq<Node>) returns (ids: seq<int>)
      ensures ids == UnavailableIds(nodes)
      ensures forall n :: n in ids <==> exists k :: 0 <= k < |nodes| && SaidNo(nodes[k]) && nodes[k].id == n
    {
      IdsAreThoseSaidNo(nodes);
      ids := [];
      for k := 0 to |nodes|
        invariant ids == UnavailableIds(nodes[..k])
      {
        assert Init(nodes[..k + 1]) == nodes[..k];
        if nodes[k].Unavailable() {
          ids := ids + [nodes[k].id];
        }
      }
      assert nodes[..|nodes|] == nodes;
    }

    method Prune(candidates: seq<int>, unavailable: seq<int>) returns (kept: seq<int>)
      ensures kept == KeepIn(candidates, unavailable)
    {
      kept := [];
      for k := 0 to |candidates|
        invariant kept == KeepIn(candidates[..k], unavailable)
      {
        assert Init(candidates[..k + 1]) == candidates[..k];
        if candidates[k] in unavailable {
          kept := kept + [candidates[k]];
        }
      }
      assert candidates[..|candidates|] == candidates;
    }
  }
}
