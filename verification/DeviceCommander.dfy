/** Command execution with nested send and verify retries, and the per-device breaker that keeps an
    unconfirming device from being flooded (services/device_commander.py). The hub's answers and the elapsed
    time check come from a World; clock samples are real numbers of seconds. */
module DeviceCommands {
  import opened Prelude

  const VERIFY_FAIL_THRESHOLD := 4
  const VERIFY_BACKOFF_SECS := 300.0

  // ----- The verify breaker of one device -----

  datatype Breaker = Breaker(fails: nat, openedAt: real)

  /** A device without an entry has no failures. */
  predicate BackoffActive(b: Option<Breaker>, now: real) {
    b.Some? && b.value.fails >= VERIFY_FAIL_THRESHOLD && now - b.value.openedAt < VERIFY_BACKOFF_SECS
  }

  function AfterUnverified(b: Option<Breaker>, now: real): Breaker {
    var was := b.GetOr(Breaker(0, 0.0));
    if was.fails + 1 >= VERIFY_FAIL_THRESHOLD then Breaker(was.fails + 1, now) else was.(fails := was.fails + 1)
  }

  // ----- How many unverified executions a caller can provoke -----

  /** Commands for one device share the pool's workers, and no lock keeps them apart. */
  const POOL_WORKERS := 8

  /** A verifying command reaches the gate, or one that got through exhausts its retries unverified: one of
      these, or one that was under way before. Both look at the clock under the breaker's lock. */
  datatype Move = Try(at: real) | GiveUp(earlier: bool, at: real)

  /** The breaker, the start times of the commands it let through, how many of them are still under way, and
      how many that began before. */
  datatype Campaign = Campaign(breaker: Option<Breaker>, starts: seq<real>, underWay: nat, earlier: nat)

  predicate Possible(workers: nat, c: Campaign, m: Move) {
    match m
    case Try(at) => BackoffActive(c.breaker, at) || c.underWay + c.earlier < workers
    case GiveUp(earlier, _) => if earlier then c.earlier > 0 else c.underWay > 0
  }

  /** A command that is backed off is skipped unrecorded. */
  function Step(c: Campaign, m: Move): Campaign {
    match m
    case Try(at) =>
      if BackoffActive(c.breaker, at) then c else c.(starts := c.starts + [at], underWay := c.underWay + 1)
    case GiveUp(earlier, at) =>
      var recorded := c.(breaker := Some(AfterUnverified(c.breaker, at)));
      if earlier then (if c.earlier > 0 then recorded.(earlier := c.earlier - 1) else recorded)
      else if c.underWay > 0 then recorded.(underWay := c.underWay - 1) else recorded
  }

  function Provoke(c: Campaign, moves: seq<Move>): Campaign {
    if moves == [] then c else Step(Provoke(c, Init(moves)), Last(moves))
  }

  /** The moves can come in this order, and time goes on. */
  predicate Feasible(workers: nat, c: Campaign, moves: seq<Move>) {
    moves == [] ||
    (&& Feasible(workers, c, Init(moves)) && Possible(workers, Provoke(c, Init(moves)), Last(moves))
     && (|moves| > 1 ==> Last(Init(moves)).at <= Last(moves).at))
  }

  lemma ProvokeSnoc(workers: nat, c: Campaign, moves: seq<Move>, m: Move)
    ensures Provoke(c, moves + [m]) == Step(Provoke(c, moves), m)
    ensures Feasible(workers, c, moves + [m]) <==>
            Feasible(workers, c, moves) && Possible(workers, Provoke(c, moves), m) && (moves != [] ==> Last(moves).at <= m.at)
  {
    InitSnoc(moves, m);
  }

  /** From the fourth on, as many starts later as there are workers, a whole backoff has passed. */
  ghost predicate Spaced(starts: seq<real>, workers: nat) {
    && (forall i, j :: 0 <= i <= j < |starts| ==> starts[i] <= starts[j])
    && forall k :: VERIFY_FAIL_THRESHOLD - 1 <= k < |starts| - workers ==> starts[k] + VERIFY_BACKOFF_SECS <= starts[k + workers]
  }

  /** What the breaker remembers at this time: of n starts, those no longer under way are recorded, and the
      latest record is no older than the start of that number. */
  ghost predicate Remembers(workers: nat, c: Campaign, now: real) {
    && c.underWay <= |c.starts| && c.underWay + c.earlier <= workers
    && (c.starts != [] ==> Last(c.starts) <= now)
    && var recorded := |c.starts| - c.underWay;
    && (recorded > 0 ==> c.breaker.Some? && c.breaker.value.fails >= recorded)
    && (recorded >= VERIFY_FAIL_THRESHOLD ==> c.starts[recorded - 1] <= c.breaker.value.openedAt)
  }

  lemma TryKeepsSpacing(workers: nat, c: Campaign, at: real, now: real)
    requires Spaced(c.starts, workers) && Remembers(workers, c, now) && now <= at
    requires !BackoffActive(c.breaker, at) && c.underWay + c.earlier < workers
    ensures Spaced(c.starts + [at], workers)
  {
    var starts, n := c.starts + [at], |c.starts|;
    forall i | 0 <= i < n ensures c.starts[i] <= at {
      assert c.starts[i] <= Last(c.starts);
    }
    if n - workers >= VERIFY_FAIL_THRESHOLD - 1 {
      var recorded := n - c.underWay;
      assert c.starts[n - workers] <= c.starts[recorded - 1];
    }
  }

  lemma StepRemembers(workers: nat, c: Campaign, m: Move, now: real)
    requires Spaced(c.starts, workers) && Remembers(workers, c, now) && now <= m.at && Possible(workers, c, m)
    ensures Spaced(Step(c, m).starts, workers) && Remembers(workers, Step(c, m), m.at)
  {
    match m
    case Try(at) =>
      if !BackoffActive(c.breaker, at) {
        TryKeepsSpacing(workers, c, at, now);
      }
    case GiveUp(earlier, at) =>
      forall i | 0 <= i < |c.starts| ensures c.starts[i] <= at {
        assert c.starts[i] <= Last(c.starts);
      }
  }

  lemma {:induction false} ProvokedStartsAreSpaced(workers: nat, b: Option<Breaker>, earlier: nat, moves: seq<Move>)
    requires earlier <= workers && Feasible(workers, Campaign(b, [], 0, earlier), moves)
    ensures var c := Provoke(Campaign(b, [], 0, earlier), moves);
            Spaced(c.starts, workers) && forall now :: (moves != [] ==> Last(moves).at <= now) ==> Remembers(workers, c, now)
  {
    if moves != [] {
      var start, before, m := Campaign(b, [], 0, earlier), Init(moves), Last(moves);
      ProvokedStartsAreSpaced(workers, b, earlier, before);
      StepRemembers(workers, Provoke(start, before), m, m.at);
    }
  }

  lemma {:induction false} SpacedStartsSpread(starts: seq<real>, workers: nat, j: nat)
    requires workers > 0 && Spaced(starts, workers) && 3 + workers * j < |starts|
    ensures starts[0] + VERIFY_BACKOFF_SECS * j as real <= starts[3 + workers * j]
  {
    if j > 0 {
      var k := 3 + workers * (j - 1);
      assert k + workers == 3 + workers * j;
      SpacedStartsSpread(starts, workers, j - 1);
      assert starts[k] + VERIFY_BACKOFF_SECS <= starts[k + workers];
      assert VERIFY_BACKOFF_SECS * j as real == VERIFY_BACKOFF_SECS * (j - 1) as real + VERIFY_BACKOFF_SECS;
    }
  }

  /** However many commands are issued, whatever the breaker remembered and whatever was under way: with at
      most `workers` executions at a time, at most 3 + workers + workers * floor(T / 300) unverified ones
      start within T seconds of the first. One at a time that is 4 + floor(T / 300). */
  lemma FloodBound(workers: nat, b: Option<Breaker>, earlier: nat, moves: seq<Move>, period: real, k: nat)
    requires workers > 0 && earlier <= workers && Feasible(workers, Campaign(b, [], 0, earlier), moves) && period >= 0.0
    requires k < |Provoke(Campaign(b, [], 0, earlier), moves).starts|
    requires var starts := Provoke(Campaign(b, [], 0, earlier), moves).starts; starts[k] <= starts[0] + period
    ensures k + 1 <= 3 + workers + workers * (period / VERIFY_BACKOFF_SECS).Floor
  {
    var starts := Provoke(Campaign(b, [], 0, earlier), moves).starts;
    var j := (period / VERIFY_BACKOFF_SECS).Floor + 1;
    ProvokedStartsAreSpaced(workers, b, earlier, moves);
    assert workers * j == workers * (j - 1) + workers;
    BackoffsExceed(period, j);
    if 3 + workers * j <= k {
      SpacedStartsSpread(starts, workers, j);
    }
  }

  lemma BackoffsExceed(period: real, j: nat)
    requires j == (period / VERIFY_BACKOFF_SECS).Floor + 1
    ensures period < VERIFY_BACKOFF_SECS * j as real
  {
  }

  /** n commands that reach the gate together. */
  function Tries(n: nat, at: real): seq<Move> {
    if n == 0 then [] else Tries(n - 1, at) + [Try(at)]
  }

  function GiveUps(n: nat, at: real): seq<Move> {
    if n == 0 then [] else GiveUps(n - 1, at) + [GiveUp(false, at)]
  }

  function Copies(n: nat, at: real): (starts: seq<real>)
    ensures |starts| == n && forall i :: 0 <= i < n ==> starts[i] == at
  {
    if n == 0 then [] else Copies(n - 1, at) + [at]
  }

  /** A gate that is open lets everything through until a failure is recorded: the "one half-open attempt"
      after a backoff is as many as there are idle workers. */
  lemma {:induction false} OpenGateAdmitsAll(workers: nat, c: Campaign, past: seq<Move>, n: nat, at: real)
    requires Feasible(workers, c, past) && (past != [] ==> Last(past).at <= at)
    requires !BackoffActive(Provoke(c, past).breaker, at)
    requires Provoke(c, past).underWay + Provoke(c, past).earlier + n <= workers
    ensures Feasible(workers, c, past + Tries(n, at))
    ensures past + Tries(n, at) != [] ==> Last(past + Tries(n, at)).at <= at
    ensures var before := Provoke(c, past);
            Provoke(c, past + Tries(n, at)) ==
            before.(starts := before.starts + Copies(n, at), underWay := before.underWay + n)
  {
    var before := Provoke(c, past);
    if n == 0 {
      assert past + Tries(0, at) == past && before.starts + Copies(0, at) == before.starts;
    } else {
      OpenGateAdmitsAll(workers, c, past, n - 1, at);
      ProvokeSnoc(workers, c, past + Tries(n - 1, at), Try(at));
      ConcatSnoc(past, Tries(n - 1, at), Try(at));
      ConcatSnoc(before.starts, Copies(n - 1, at), at);
    }
  }

  /** The breaker after n more failures at this time. */
  function Failing(b: Option<Breaker>, n: nat, at: real): Option<Breaker> {
    if n == 0 then b else Some(AfterUnverified(Failing(b, n - 1, at), at))
  }

  lemma {:induction false} FailingCounts(b: Option<Breaker>, n: nat, at: real)
    ensures Failing(b, n, at).GetOr(Breaker(0, 0.0)).fails == b.GetOr(Breaker(0, 0.0)).fails + n
    ensures n > 0 && Failing(b, n, at).value.fails >= VERIFY_FAIL_THRESHOLD ==> Failing(b, n, at).value.openedAt == at
  {
    if n > 0 {
      FailingCounts(b, n - 1, at);
    }
  }

  /** n of the commands under way give up together. */
  lemma {:induction false} GiveUpsRecord(workers: nat, c: Campaign, past: seq<Move>, n: nat, at: real)
    requires Feasible(workers, c, past) && (past != [] ==> Last(past).at <= at) && Provoke(c, past).underWay >= n
    ensures Feasible(workers, c, past + GiveUps(n, at))
    ensures past + GiveUps(n, at) != [] ==> Last(past + GiveUps(n, at)).at <= at
    ensures var before := Provoke(c, past);
            Provoke(c, past + GiveUps(n, at)) ==
            before.(breaker := Failing(before.breaker, n, at), underWay := before.underWay - n)
  {
    if n == 0 {
      assert past + GiveUps(0, at) == past;
    } else {
      GiveUpsRecord(workers, c, past, n - 1, at);
      ProvokeSnoc(workers, c, past + GiveUps(n - 1, at), GiveUp(false, at));
      ConcatSnoc(past, GiveUps(n - 1, at), GiveUp(false, at));
    }
  }

  function Slot(n: nat): real {
    if n == 0 then 0.0 else Slot(n - 1) + VERIFY_BACKOFF_SECS
  }

  /** n commands at time 0, one after the other. */
  function OneByOne(n: nat): seq<Move> {
    if n == 0 then [] else OneByOne(n - 1) + Tries(1, 0.0) + GiveUps(1, 0.0)
  }

  /** Commands that reach the bound: three one by one, then all workers at once, and again at the end of every
      backoff. */
  function Flood(workers: nat, n: nat): seq<Move> {
    if n == 0 then OneByOne(3) + Tries(workers, 0.0)
    else Flood(workers, n - 1) + GiveUps(workers, Slot(n - 1)) + Tries(workers, Slot(n))
  }

  const FRESH := Campaign(None, [], 0, 0)

  /** Where a run from scratch stands: what started, what is under way, what failed, and the gate. */
  ghost predicate Stands(workers: nat, moves: seq<Move>, now: real, started: nat, underWay: nat, fails: nat) {
    && Feasible(workers, FRESH, moves) && (moves != [] ==> Last(moves).at <= now)
    && var c := Provoke(FRESH, moves);
    && |c.starts| == started && c.underWay == underWay && c.earlier == 0
    && c.breaker.GetOr(Breaker(0, 0.0)).fails == fails && (started > 0 ==> c.starts[0] == 0.0)
  }

  ghost predicate GateOpen(moves: seq<Move>, at: real) {
    !BackoffActive(Provoke(FRESH, moves).breaker, at)
  }

  lemma AllTry(workers: nat, moves: seq<Move>, now: real, started: nat, underWay: nat, fails: nat, n: nat, at: real)
    requires Stands(workers, moves, now, started, underWay, fails) && now <= at && GateOpen(moves, at)
    requires underWay + n <= workers && (started == 0 ==> at == 0.0)
    ensures Stands(workers, moves + Tries(n, at), at, started + n, underWay + n, fails)
    ensures n > 0 ==> Last(Provoke(FRESH, moves + Tries(n, at)).starts) == at
  {
    OpenGateAdmitsAll(workers, FRESH, moves, n, at);
  }

  lemma AllGiveUp(workers: nat, moves: seq<Move>, now: real, started: nat, underWay: nat, fails: nat, n: nat)
    requires Stands(workers, moves, now, started, underWay, fails) && n <= underWay
    ensures Stands(workers, moves + GiveUps(n, now), now, started, underWay - n, fails + n)
    ensures n > 0 ==> GateOpen(moves + GiveUps(n, now), now + VERIFY_BACKOFF_SECS)
    ensures fails + n < VERIFY_FAIL_THRESHOLD ==> GateOpen(moves + GiveUps(n, now), now)
  {
    GiveUpsRecord(workers, FRESH, moves, n, now);
    FailingCounts(Provoke(FRESH, moves).breaker, n, now);
  }

  lemma OneMore(workers: nat, moves: seq<Move>, n: nat)
    requires workers > 0 && n + 1 < VERIFY_FAIL_THRESHOLD
    requires Stands(workers, moves, 0.0, n, 0, n) && GateOpen(moves, 0.0)
    ensures var more := moves + Tries(1, 0.0) + GiveUps(1, 0.0);
            Stands(workers, more, 0.0, n + 1, 0, n + 1) && GateOpen(more, 0.0)
  {
    AllTry(workers, moves, 0.0, n, 0, n, 1, 0.0);
    AllGiveUp(workers, moves + Tries(1, 0.0), 0.0, n + 1, 1, n, 1);
  }

  lemma {:induction false} OneByOneRun(workers: nat, n: nat)
    requires workers > 0 && n < VERIFY_FAIL_THRESHOLD
    ensures Stands(workers, OneByOne(n), 0.0, n, 0, n) && GateOpen(OneByOne(n), 0.0)
  {
    if n > 0 {
      var before := OneByOne(n - 1);
      OneByOneRun(workers, n - 1);
      OneMore(workers, before, n - 1);
    }
  }

  lemma {:induction false} FloodRun(workers: nat, n: nat)
    requires workers > 0
    ensures Stands(workers, Flood(workers, n), Slot(n), 3 + workers + workers * n, workers, 3 + workers * n)
    ensures Last(Provoke(FRESH, Flood(workers, n)).starts) == Slot(n)
  {
    if n == 0 {
      OneByOneRun(workers, 3);
      AllTry(workers, OneByOne(3), 0.0, 3, 0, 3, workers, 0.0);
    } else {
      FloodRun(workers, n - 1);
      assert workers * n == workers * (n - 1) + workers;
      var started, fails := 3 + workers + workers * (n - 1), 3 + workers * (n - 1);
      AllGiveUp(workers, Flood(workers, n - 1), Slot(n - 1), started, workers, fails, workers);
      AllTry(workers, Flood(workers, n - 1) + GiveUps(workers, Slot(n - 1)), Slot(n - 1), started, 0, fails + workers,
             workers, Slot(n));
    }
  }

  lemma {:induction false} SlotsAdd(n: nat)
    ensures Slot(n) == VERIFY_BACKOFF_SECS * n as real
  {
    if n > 0 {
      SlotsAdd(n - 1);
    }
  }

  /** The bound is attained for any number of workers and of backoffs: 3 + workers + workers * n executions
      start within 300 n seconds. */
  lemma FloodBoundIsTight(workers: nat, n: nat)
    requires workers > 0
    ensures Feasible(workers, FRESH, Flood(workers, n))
    ensures var starts := Provoke(FRESH, Flood(workers, n)).starts;
            && starts != [] && |starts| == 3 + workers + workers * n
            && Last(starts) == starts[0] + VERIFY_BACKOFF_SECS * n as real
  {
    FloodRun(workers, n);
    SlotsAdd(n);
  }

  /** A device nothing is known of: the whole pool gets through at once. */
  lemma WholePoolAtOnce()
    ensures Feasible(POOL_WORKERS, FRESH, Tries(POOL_WORKERS, 0.0))
    ensures |Provoke(FRESH, Tries(POOL_WORKERS, 0.0)).starts| == 8
  {
    assert [] + Tries(POOL_WORKERS, 0.0) == Tries(POOL_WORKERS, 0.0);
    OpenGateAdmitsAll(POOL_WORKERS, FRESH, [], POOL_WORKERS, 0.0);
  }

  // ----- One execution -----

  datatype Status = Idle | Updating | Verified | Failed | TimedOut

  datatype Sent = Accepted | Refused | SendRaised

  /** What a poll brought: the attribute's value (or its absence), no device data, or an exception. */
  datatype Reading = Saw(value: Option<string>) | NoData | PollRaised

  datatype Problem = CommandRefused | CommandRaised | Unconfirmed | OverallTimeout | BackedOff

  datatype CommandResult = CommandResult(
    success: bool,
    verified: bool,
    status: Status,
    actual: Option<string>,
    expected: Option<string>,
    error: Option<Problem>)

  /** The hub and the clock as one execution meets them: outer counts sends, mid the polls after a send. */
  datatype World = World(send: nat -> Sent, poll: (nat, nat) -> Reading, late: (nat, nat) -> bool)

  datatype Limits = Limits(operationRetries: nat, verifyRetries: nat)

  /** How an execution ends, and where. */
  datatype Ending = Confirmed(outer: nat, mid: nat) | RanLate(outer: nat, mid: nat) | Exhausted | SentOnly(outer: nat)

  predicate Matches(w: World, expected: string, outer: nat, mid: nat) {
    w.poll(outer, mid) == Saw(Some(expected))
  }

  /** Does the poll, if it is reached, end the execution? */
  predicate Ends(w: World, expected: string, outer: nat, mid: nat) {
    w.late(outer, mid) || Matches(w, expected, outer, mid)
  }

  /** The polls from this one on after one accepted send. */
  function PollFrom(l: Limits, w: World, expected: string, outer: nat, mid: nat): Ending
    decreases l.verifyRetries - mid
  {
    if mid >= l.verifyRetries then Exhausted
    else if w.late(outer, mid) then RanLate(outer, mid)
    else if Matches(w, expected, outer, mid) then Confirmed(outer, mid)
    else PollFrom(l, w, expected, outer, mid + 1)
  }

  function SendFrom(l: Limits, w: World, expected: Option<string>, outer: nat): Ending
    decreases l.operationRetries - outer
  {
    if outer >= l.operationRetries then Exhausted
    else if w.send(outer) != Accepted then SendFrom(l, w, expected, outer + 1)
    else if expected.None? then SentOnly(outer)
    else if PollFrom(l, w, expected.value, outer, 0) == Exhausted then SendFrom(l, w, expected, outer + 1)
    else PollFrom(l, w, expected.value, outer, 0)
  }

  /** The poll takes place: its send was accepted and no poll before it ended the execution. */
  ghost predicate Reached(l: Limits, w: World, expected: string, outer: nat, mid: nat) {
    && outer < l.operationRetries && mid < l.verifyRetries && w.send(outer) == Accepted
    && (forall m: nat :: m < mid ==> !Ends(w, expected, outer, m))
    && (forall o: nat, m: nat :: o < outer && m < l.verifyRetries && w.send(o) == Accepted ==> !Ends(w, expected, o, m))
  }

  lemma {:induction false} PollEndings(l: Limits, w: World, expected: string, outer: nat, mid: nat)
    ensures PollFrom(l, w, expected, outer, mid) == Exhausted <==>
              forall m: nat :: mid <= m < l.verifyRetries ==> !Ends(w, expected, outer, m)
    ensures var e := PollFrom(l, w, expected, outer, mid);
            e != Exhausted ==>
              && (e.Confirmed? || e.RanLate?) && e.outer == outer && mid <= e.mid < l.verifyRetries
              && (forall m: nat :: mid <= m < e.mid ==> !Ends(w, expected, outer, m))
              && (if e.RanLate? then w.late(outer, e.mid) else !w.late(outer, e.mid) && Matches(w, expected, outer, e.mid))
    decreases l.verifyRetries - mid
  {
    if mid < l.verifyRetries && !Ends(w, expected, outer, mid) {
      PollEndings(l, w, expected, outer, mid + 1);
    }
  }

  /** A verifying command is confirmed exactly by the first poll that ends it, if that poll matches in time;
      it exhausts its retries exactly when no poll it reaches ends it. */
  lemma {:induction false} FirstEndingPollDecides(l: Limits, w: World, expected: string, from: nat)
    requires forall o: nat, m: nat :: o < from && m < l.verifyRetries && w.send(o) == Accepted ==> !Ends(w, expected, o, m)
    ensures var e := SendFrom(l, w, Some(expected), from);
            && !e.SentOnly?
            && (e == Exhausted <==> forall o: nat, m: nat :: Reached(l, w, expected, o, m) ==> !Ends(w, expected, o, m))
            && (e != Exhausted ==>
                  && Reached(l, w, expected, e.outer, e.mid) && Ends(w, expected, e.outer, e.mid)
                  && (e.RanLate? <==> w.late(e.outer, e.mid)))
    decreases l.operationRetries - from
  {
    var e := SendFrom(l, w, Some(expected), from);
    if from < l.operationRetries {
      PollEndings(l, w, expected, from, 0);
      if w.send(from) != Accepted || PollFrom(l, w, expected, from, 0) == Exhausted {
        FirstEndingPollDecides(l, w, expected, from + 1);
      } else {
        assert Reached(l, w, expected, from, e.mid);
      }
    } else {
      forall o: nat, m: nat | Reached(l, w, expected, o, m)
        ensures !Ends(w, expected, o, m)
      {
      }
    }
  }

  /** A command that is not verified ends at the first send that is accepted, and exhausts its retries
      exactly when none is. */
  lemma {:induction false} FirstAcceptedSendDecides(l: Limits, w: World, from: nat)
    ensures var e := SendFrom(l, w, None, from);
            && (e == Exhausted <==> forall o: nat :: from <= o < l.operationRetries ==> w.send(o) != Accepted)
            && (e != Exhausted ==>
                  && e.SentOnly? && from <= e.outer < l.operationRetries && w.send(e.outer) == Accepted
                  && forall o: nat :: from <= o < e.outer ==> w.send(o) != Accepted)
    decreases l.operationRetries - from
  {
    if from < l.operationRetries && w.send(from) != Accepted {
      FirstAcceptedSendDecides(l, w, from + 1);
    }
  }

  /** How many commands went out by the end. */
  function SendsBy(l: Limits, e: Ending): nat {
    if e == Exhausted then l.operationRetries else e.outer + 1
  }

  /** The problem of the latest of the first sends that was not accepted; an accepted one does not take it back. */
  function Complaint(w: World, sends: nat): Option<Problem> {
    if sends == 0 then None
    else match w.send(sends - 1)
      case Accepted => Complaint(w, sends - 1)
      case Refused => Some(CommandRefused)
      case SendRaised => Some(CommandRaised)
  }

  /** The latest value seen by the polls before this one, if any saw the device. */
  function SeenBefore(l: Limits, w: World, outer: nat, mid: nat): Option<Option<string>>
    decreases outer, mid
  {
    if mid > 0 then
      match w.poll(outer, mid - 1)
      case Saw(value) => Some(value)
      case _ => SeenBefore(l, w, outer, mid - 1)
    else if outer > 0 then SeenBefore(l, w, outer - 1, if w.send(outer - 1) == Accepted then l.verifyRetries else 0)
    else None
  }

  /** The latest value seen by the end of a command that was to be verified. */
  function SeenBy(l: Limits, w: World, e: Ending): Option<Option<string>> {
    match e
    case Confirmed(outer, mid) => SeenBefore(l, w, outer, mid + 1)
    case RanLate(outer, mid) => SeenBefore(l, w, outer, mid)
    case _ => SeenBefore(l, w, l.operationRetries, 0)
  }

  /** The result shows the latest value seen and, if there was one, what it should have been. */
  predicate Shows(r: CommandResult, expected: string, seen: Option<Option<string>>) {
    r.actual == seen.GetOr(None) && r.expected == if seen.Some? then Some(expected) else None
  }

  /** What the result complains of: the timeout, the missing confirmation, or the latest send that failed. */
  function ErrorAfter(w: World, verifying: bool, e: Ending, sends: nat): Option<Problem> {
    if e.RanLate? then Some(OverallTimeout)
    else if e == Exhausted && verifying then Some(Unconfirmed)
    else Complaint(w, sends)
  }

  function BreakerAfter(b: map<string, Breaker>, device: string, verifying: bool, e: Ending, finish: real): map<string, Breaker> {
    match e
    case Confirmed(_, _) => b - {device}
    case Exhausted => if verifying then b[device := AfterUnverified(Entry(b, device), finish)] else b
    case _ => b
  }

  function Entry(b: map<string, Breaker>, device: string): Option<Breaker> {
    if device in b then Some(b[device]) else None
  }

  /** The status the ending leaves on the device; a fire-and-forget command that is never accepted leaves the
      one set before the first send. */
  function StatusAfter(verifying: bool, e: Ending): Status {
    match e
    case Confirmed(_, _) => Verified
    case RanLate(_, _) => TimedOut
    case SentOnly(_) => Idle
    case Exhausted => if verifying then Failed else Updating
  }

  // ----- What the breaker remembers -----

  /** An execution that has ended: the device, whether it was verified, how it ended and when. */
  datatype Conclusion = Conclusion(device: string, verifying: bool, ending: Ending, finish: real)

  function Remembered(cs: seq<Conclusion>): map<string, Breaker> {
    if cs == [] then map[]
    else
      var c := Last(cs);
      BreakerAfter(Remembered(Init(cs)), c.device, c.verifying, c.ending, c.finish)
  }

  /** When this device's verifications failed since one of its own last succeeded. Executions that ran late, were
      not verified or were about other devices do not count either way. */
  function FailuresInARow(cs: seq<Conclusion>, device: string): seq<real> {
    if cs == [] then []
    else
      var before, c := FailuresInARow(Init(cs), device), Last(cs);
      if c.device != device then before
      else match c.ending
        case Confirmed(_, _) => []
        case Exhausted => if c.verifying then before + [c.finish] else before
        case _ => before
  }

  /** Over any executions: a device has an entry exactly while failures stand against it, and is backed off exactly
      when at least four of them do and the latest is less than 300 seconds old. */
  lemma {:induction false} BackoffFollowsFailuresInARow(cs: seq<Conclusion>, device: string, now: real)
    ensures var failures, entry := FailuresInARow(cs, device), Entry(Remembered(cs), device);
            && (entry.None? <==> failures == [])
            && (entry.Some? ==>
                  && entry.value.fails == |failures|
                  && (|failures| >= 4 ==> entry.value.openedAt == Last(failures)))
            && (BackoffActive(entry, now) <==> |failures| >= 4 && now - Last(failures) < 300.0)
  {
    if cs != [] {
      BackoffFollowsFailuresInARow(Init(cs), device, now);
    }
  }

  /** A confirmed execution forgets its device, which is then not backed off at any time, and no other one. */
  lemma ConfirmationForgets(cs: seq<Conclusion>, device: string, verifying: bool, outer: nat, mid: nat, finish: real)
    ensures var after := Remembered(cs + [Conclusion(device, verifying, Confirmed(outer, mid), finish)]);
            && device !in after && (forall now :: !BackoffActive(Entry(after, device), now))
            && forall d :: d != device ==> Entry(after, d) == Entry(Remembered(cs), d)
  {
    InitSnoc(cs, Conclusion(device, verifying, Confirmed(outer, mid), finish));
  }

  // ----- What the status says -----

  /** The poll is reached, in time and sees the expected value, or is reached too late. */
  ghost predicate ConfirmingPoll(l: Limits, w: World, expected: string, o: nat, m: nat) {
    Reached(l, w, expected, o, m) && !w.late(o, m) && w.poll(o, m) == Saw(Some(expected))
  }

  ghost predicate LatePoll(l: Limits, w: World, expected: string, o: nat, m: nat) {
    Reached(l, w, expected, o, m) && w.late(o, m)
  }

  /** The status left behind says what happened: VERIFIED that a poll in time saw the expected value, TIMED_OUT that one
      came too late, FAILED that neither did; without verification IDLE that a send was accepted, UPDATING that none
      was. */
  lemma StatusTellsTheOutcome(l: Limits, w: World, expected: Option<string>)
    ensures var status := StatusAfter(expected.Some?, SendFrom(l, w, expected, 0));
            if expected.Some? then
              && (status == Verified <==> exists o: nat, m: nat :: ConfirmingPoll(l, w, expected.value, o, m))
              && (status == TimedOut <==> exists o: nat, m: nat :: LatePoll(l, w, expected.value, o, m))
              && status in {Verified, TimedOut, Failed}
            else
              && (status == Idle <==> exists o: nat :: o < l.operationRetries && w.send(o) == Accepted)
              && status in {Idle, Updating}
  {
    var e := SendFrom(l, w, expected, 0);
    if expected.None? {
      FirstAcceptedSendDecides(l, w, 0);
    } else {
      FirstEndingPollDecides(l, w, expected.value, 0);
      if e != Exhausted {
        assert ConfirmingPoll(l, w, expected.value, e.outer, e.mid) || LatePoll(l, w, expected.value, e.outer, e.mid);
      }
      forall o: nat, m: nat | Reached(l, w, expected.value, o, m) && Ends(w, expected.value, o, m)
        ensures e != Exhausted && o == e.outer && m == e.mid
      {
        assert Reached(l, w, expected.value, e.outer, e.mid);
      }
    }
  }

  lemma OneMoreSend(sends: nat, retries: nat)
    ensures (sends + 1) * retries == sends * retries + retries
  {
  }

  class DeviceCommander {
    const limits: Limits
    var verifyBreaker: map<string, Breaker>
    var deviceStatus: map<string, Status>

    constructor (limits: Limits)
      ensures this.limits == limits && verifyBreaker == map[] && deviceStatus == map[]
    {
      this.limits := limits;
      verifyBreaker, deviceStatus := map[], map[];
    }

    method VerifyBackoffActive(device: string, now: real) returns (active: bool)
      ensures active == BackoffActive(Entry(verifyBreaker, device), now)
    {
      if device !in verifyBreaker || verifyBreaker[device].fails < VERIFY_FAIL_THRESHOLD {
        return false;
      }
      return now - verifyBreaker[device].openedAt < VERIFY_BACKOFF_SECS;
    }

    method RecordVerifyResult(device: string, ok: bool, now: real)
      modifies this`verifyBreaker
      ensures verifyBreaker == BreakerAfter(old(verifyBreaker), device, true, if ok then Confirmed(0, 0) else Exhausted, now)
      ensures ok ==> device !in verifyBreaker && forall d :: d != device ==> Entry(verifyBreaker, d) == Entry(old(verifyBreaker), d)
    {
      if ok {
        verifyBreaker := verifyBreaker - {device};
        return;
      }
      var b := if device in verifyBreaker then verifyBreaker[device] else Breaker(0, 0.0);
      b := b.(fails := b.fails + 1);
      if b.fails >= VERIFY_FAIL_THRESHOLD {
        b := b.(openedAt := now);
      }
      verifyBreaker := verifyBreaker[device := b];
    }

    /** The polls after one accepted send. */
    method VerifyPolls(w: World, expected: string, outer: nat, r0: CommandResult)
      returns (r: CommandResult, ending: Ending, ghost polls: nat)
      requires r0.success && !r0.verified && r0.status == Idle && r0.actual != Some(expected)
      requires Shows(r0, expected, SeenBefore(limits, w, outer, 0))
      ensures ending == PollFrom(limits, w, expected, outer, 0) && polls <= limits.verifyRetries
      ensures r.success && !r.verified
      ensures Shows(r, expected,
                    if ending == Exhausted then SeenBefore(limits, w, outer, limits.verifyRetries) else SeenBy(limits, w, ending))
      ensures ending == Exhausted ==> r.status == Idle && r.actual != Some(expected) && r.error == r0.error
      ensures ending.RanLate? ==> r.status == TimedOut && r.actual != Some(expected) && r.error == Some(OverallTimeout)
      ensures ending.Confirmed? ==> r.status == Idle && r.actual == r.expected == Some(expected) && r.error == r0.error
    {
      r, polls := r0, 0;
      for mid := 0 to limits.verifyRetries
        invariant PollFrom(limits, w, expected, outer, 0) == PollFrom(limits, w, expected, outer, mid)
        invariant polls == mid && r.success && !r.verified && r.status == Idle && r.actual != Some(expected)
        invariant r.error == r0.error && Shows(r, expected, SeenBefore(limits, w, outer, mid))
      {
        if w.late(outer, mid) {
          r := r.(status := TimedOut, error := Some(OverallTimeout));
          return r, RanLate(outer, mid), polls;
        }
        polls := polls + 1;
        var reading := w.poll(outer, mid);
        if reading.Saw? {
          r := r.(actual := reading.value, expected := Some(expected));
          if reading.value == Some(expected) {
            return r, Confirmed(outer, mid), polls;
          }
        }
      }
      ending := Exhausted;
    }

    /** Sends and verifies until the command is confirmed, runs late or exhausts its retries. */
    method SendAndVerify(expected: Option<string>, w: World)
      returns (r: CommandResult, e: Ending, ghost sends: nat, ghost polls: nat)
      ensures e == SendFrom(limits, w, expected, 0)
      ensures sends == SendsBy(limits, e) <= limits.operationRetries && polls <= sends * limits.verifyRetries && !r.verified
      ensures e.Confirmed? ==> r.success && r.actual == r.expected == expected
      ensures e.RanLate? ==> r.status == TimedOut && r.error == Some(OverallTimeout)
      ensures e.RanLate? || e == Exhausted ==> expected.Some? ==> r.actual != expected
      ensures if expected.None? then e.SentOnly? || e == Exhausted else !e.SentOnly?
      ensures e == Exhausted || e.SentOnly? ==> r.status == Idle
      ensures r.success <==> exists o: nat :: o < sends && w.send(o) == Accepted
      ensures r.error == if e.RanLate? then Some(OverallTimeout) else Complaint(w, sends)
      ensures if expected.Some? then Shows(r, expected.value, SeenBy(limits, w, e)) else r.actual == r.expected == None
    {
      r, sends, polls := CommandResult(false, false, Idle, None, None, None), 0, 0;
      if expected.Some? {
        FirstEndingPollDecides(limits, w, expected.value, 0);
      }
      for outer := 0 to limits.operationRetries
        invariant SendFrom(limits, w, expected, 0) == SendFrom(limits, w, expected, outer)
        invariant sends == outer && polls <= outer * limits.verifyRetries
        invariant !r.verified && r.status == Idle && (expected.Some? ==> r.actual != expected)
        invariant r.success <==> exists o: nat :: o < outer && w.send(o) == Accepted
        invariant r.error == Complaint(w, outer)
        invariant if expected.Some? then Shows(r, expected.value, SeenBefore(limits, w, outer, 0)) else r.actual == r.expected == None
      {
        sends := sends + 1;
        OneMoreSend(outer, limits.verifyRetries);
        var sent := w.send(outer);
        if sent == SendRaised {
          r := r.(error := Some(CommandRaised));
        } else if sent == Refused {
          r := r.(error := Some(CommandRefused));
        } else {
          r := r.(success := true);
          if expected.None? {
            return r, SentOnly(outer), sends, polls;
          }
          ghost var more;
          r, e, more := VerifyPolls(w, expected.value, outer, r);
          polls := polls + more;
          if e != Exhausted {
            PollEndings(limits, w, expected.value, outer, 0);
            return;
          }
        }
      }
      e := Exhausted;
    }

    /** Accounts for an ending: the result, the device's status, the breaker. */
    method Conclude(device: string, verifying: bool, e: Ending, sent: CommandResult, finish: real) returns (r: CommandResult)
      modifies this
      ensures verifyBreaker == BreakerAfter(old(verifyBreaker), device, verifying, e, finish)
      ensures deviceStatus ==
              if StatusAfter(verifying, e) == Updating then old(deviceStatus)
              else old(deviceStatus)[device := StatusAfter(verifying, e)]
      ensures r == if e.Confirmed? then sent.(verified := true, status := Verified)
                   else if e == Exhausted && verifying then sent.(status := Failed, error := Some(Unconfirmed))
                   else sent
    {
      r := sent;
      match e {
        case SentOnly(_) =>
          deviceStatus := deviceStatus[device := Idle];
        case RanLate(_, _) =>
          deviceStatus := deviceStatus[device := TimedOut];
        case Confirmed(_, _) =>
          r := r.(verified := true, status := Verified);
          deviceStatus := deviceStatus[device := Verified];
          RecordVerifyResult(device, true, finish);
        case Exhausted =>
          if verifying {
            r := r.(status := Failed, error := Some(Unconfirmed));
            deviceStatus := deviceStatus[device := Failed];
            RecordVerifyResult(device, false, finish);
          }
      }
    }

    /** No send of a fire-and-forget command is accepted. */
    ghost predicate NeverAccepted(w: World) {
      forall o: nat :: o < limits.operationRetries ==> w.send(o) != Accepted
    }

    /** One command: skipped while the device is backed off, otherwise sent, verified and accounted for. */
    method Execute(device: string, verify: bool, state: Option<string>, w: World, start: real, finish: real)
      returns (r: CommandResult, ghost sends: nat, ghost polls: nat)
      modifies this
      ensures var expected := if verify then state else None;
              var e := SendFrom(limits, w, expected, 0);
              if verify && BackoffActive(Entry(old(verifyBreaker), device), start) then
                && sends == polls == 0 && r == CommandResult(false, false, Failed, None, None, Some(BackedOff))
                && verifyBreaker == old(verifyBreaker) && deviceStatus == old(deviceStatus)[device := Failed]
              else
                && sends == SendsBy(limits, e) <= limits.operationRetries && polls <= sends * limits.verifyRetries
                && verifyBreaker == BreakerAfter(old(verifyBreaker), device, expected.Some?, e, finish)
                && deviceStatus == old(deviceStatus)[device := StatusAfter(expected.Some?, e)]
                && (r.verified <==> e.Confirmed?)
                && (r.verified ==> r.success && r.status == Verified && r.actual == r.expected == expected)
                && (!r.verified && expected.Some? ==> r.status == StatusAfter(true, e) != Verified && r.actual != expected)
                && (expected.None? ==> r.status == Idle)
                && (r.success <==> exists o: nat :: o < sends && w.send(o) == Accepted)
                && r.error == ErrorAfter(w, expected.Some?, e, sends)
                && (expected.Some? ==> Shows(r, expected.value, SeenBy(limits, w, e)))
                && (expected.None? ==> r.actual == r.expected == None)
      ensures deviceStatus[device] == Updating <==>
              && (!verify || state.None?) && NeverAccepted(w)
              && !(verify && BackoffActive(Entry(old(verifyBreaker), device), start))
      ensures deviceStatus[device] == Updating ==> !r.success && sends == limits.operationRetries
    {
      r, sends, polls := CommandResult(false, false, Idle, None, None, None), 0, 0;
      var expected := if verify then state else None;
      deviceStatus := deviceStatus[device := Updating];
      var active := VerifyBackoffActive(device, start);
      if verify && active {
        r := r.(status := Failed, error := Some(BackedOff));
        deviceStatus := deviceStatus[device := Failed];
        return;
      }
      var e;
      r, e, sends, polls := SendAndVerify(expected, w);
      if expected.None? {
        FirstAcceptedSendDecides(limits, w, 0);
      }
      r := Conclude(device, expected.Some?, e, r, finish);
    }
  }

  /** A hub that refuses every command and shows nothing. */
  const REFUSING := World(o => Refused, (o, m) => NoData, (o, m) => false)

  /** The lifecycle promises an end after UPDATING. A fire-and-forget command to a refusing hub, whatever the
      number of retries, leaves the device UPDATING and the breaker as it was. */
  lemma RefusedCommandNeverEnds(l: Limits, b: map<string, Breaker>, device: string, finish: real)
    ensures var e := SendFrom(l, REFUSING, None, 0);
            StatusAfter(false, e) == Updating && BreakerAfter(b, device, false, e, finish) == b
  {
    FirstAcceptedSendDecides(l, REFUSING, 0);
  }

  /** One such run, with two refused sends. */
  method RefusedCommandStaysUpdating() returns (c: DeviceCommander, r: CommandResult)
    ensures "lamp" in c.deviceStatus && c.deviceStatus["lamp"] == Updating
    ensures !r.success && r.status == Idle && c.verifyBreaker == map[]
  {
    c := new DeviceCommander(Limits(2, 3));
    ghost var sends, polls;
    r, sends, polls := c.Execute("lamp", false, Some("on"), REFUSING, 0.0, 0.0);
  }
}
