/**
  The fail-fast circuit breaker of services/circuit_breaker.py.

  Core, Event and Run are the breaker as a state machine over the atomic steps the lock protects;
  CircuitBreaker is the object that performs them. Clock samples are real numbers of seconds.
  */
module CircuitBreakers {
  import opened Prelude

  datatype BreakerState = Closed | Open | HalfOpen

  datatype Config = Config(failThreshold: int, resetTimeoutSecs: real, failWindowSecs: real)

  /** The fields guarded by the lock that decide what the breaker does. */
  datatype Core = Core(
    state: BreakerState,
    failureCount: nat,
    firstFailureAt: Option<real>,
    openedAt: Option<real>,
    probeInFlight: bool)

  const FRESH := Core(Closed, 0, None, None, false)

  /** One atomic step: the gate before a call, a recorded outcome, or an operator reset. */
  datatype Event = Before(now: real) | Failure(now: real) | Success | Reset {
    predicate Timed() { Before? || Failure? }
  }

  // ---------------------------------------------------------------------------------------------
  // The steps
  // ---------------------------------------------------------------------------------------------

  /** Does the gate let the caller through? */
  predicate Admits(cfg: Config, c: Core, now: real) {
    match c.state
    case Closed => true
    case Open => c.openedAt.Some? && now - c.openedAt.value >= cfg.resetTimeoutSecs
    case HalfOpen => !c.probeInFlight
  }

  function AfterGate(cfg: Config, c: Core, now: real): Core {
    if c.state == Closed || !Admits(cfg, c, now) then c
    else c.(state := HalfOpen, probeInFlight := true)
  }

  /** The window is anchored at the first failure it counts; it does not slide. */
  predicate StartsNewWindow(cfg: Config, c: Core, now: real) {
    c.firstFailureAt.None? || now - c.firstFailureAt.value > cfg.failWindowSecs
  }

  function AfterFailure(cfg: Config, c: Core, now: real): Core {
    if c.state == HalfOpen then
      c.(probeInFlight := false, state := Open, openedAt := Some(now))
    else
      var counted :=
        if StartsNewWindow(cfg, c, now) then c.(firstFailureAt := Some(now), failureCount := 1)
        else c.(failureCount := c.failureCount + 1);
      if counted.failureCount >= cfg.failThreshold
      then counted.(state := Open, openedAt := Some(now))
      else counted
  }

  function AfterSuccess(c: Core): Core {
    if c.state == HalfOpen then FRESH
    else c.(failureCount := 0, firstFailureAt := None)
  }

  function Step(cfg: Config, c: Core, e: Event): Core {
    match e
    case Before(now) => AfterGate(cfg, c, now)
    case Failure(now) => AfterFailure(cfg, c, now)
    case Success => AfterSuccess(c)
    case Reset => FRESH
  }

  function Run(cfg: Config, c: Core, es: seq<Event>): Core {
    if es == [] then c else Step(cfg, Run(cfg, c, Init(es)), Last(es))
  }

  lemma RunSnoc(cfg: Config, c: Core, es: seq<Event>, e: Event)
    ensures Run(cfg, c, es + [e]) == Step(cfg, Run(cfg, c, es), e)
  {
    assert Init(es + [e]) == es;
  }

  lemma {:induction false} RunConcat(cfg: Config, c: Core, es: seq<Event>, fs: seq<Event>)
    ensures Run(cfg, c, es + fs) == Run(cfg, Run(cfg, c, es), fs)
  {
    if fs == [] {
      assert es + fs == es;
    } else {
      RunConcat(cfg, c, es, Init(fs));
      assert es + fs == (es + Init(fs)) + [Last(fs)];
      RunSnoc(cfg, c, es + Init(fs), Last(fs));
    }
  }

  // ---------------------------------------------------------------------------------------------
  // What holds in every reachable state
  // ---------------------------------------------------------------------------------------------

  ghost predicate Consistent(cfg: Config, c: Core) {
    && (c.state == Closed ==> c.failureCount < cfg.failThreshold && c.openedAt.None?)
    && (c.state != Closed ==> c.openedAt.Some?)
    && (c.failureCount == 0 <==> c.firstFailureAt.None?)
    && (c.state == HalfOpen <==> c.probeInFlight)
  }

  /** Every reachable state is consistent; in particular HALF_OPEN holds exactly while a probe flag is set. */
  lemma {:induction false} ReachableIsConsistent(cfg: Config, es: seq<Event>)
    requires cfg.failThreshold >= 1
    ensures Consistent(cfg, Run(cfg, FRESH, es))
  {
    if es != [] {
      ReachableIsConsistent(cfg, Init(es));
    }
  }

  // ---------------------------------------------------------------------------------------------
  // Trip soundness
  // ---------------------------------------------------------------------------------------------

  /** Times of the failures recorded since the last success or operator reset, oldest first. */
  function Streak(es: seq<Event>): seq<real> {
    if es == [] then []
    else match Last(es)
      case Before(_) => Streak(Init(es))
      case Failure(now) => Streak(Init(es)) + [now]
      case Success => []
      case Reset => []
  }

  /** Times of the failures that count towards a trip: those of the streak that were not recorded in HALF_OPEN. */
  function CountedFailures(cfg: Config, es: seq<Event>): seq<real> {
    if es == [] then []
    else match Last(es)
      case Before(_) => CountedFailures(cfg, Init(es))
      case Failure(now) =>
        if Run(cfg, FRESH, Init(es)).state == HalfOpen then CountedFailures(cfg, Init(es))
        else CountedFailures(cfg, Init(es)) + [now]
      case Success => []
      case Reset => []
  }

  /** Where the latest window over these times begins: each window starts at a time later than the window before
      it reaches. */
  function WindowStart(windowSecs: real, ts: seq<real>): (k: nat)
    ensures ts != [] ==> k < |ts|
    ensures ts == [] ==> k == 0
  {
    if |ts| <= 1 then 0
    else
      var k := WindowStart(windowSecs, Init(ts));
      if Last(ts) > ts[k] + windowSecs then |ts| - 1 else k
  }

  /** How many of these times lie in the latest window. */
  function InLatestWindow(windowSecs: real, ts: seq<real>): nat {
    |ts| - WindowStart(windowSecs, ts)
  }

  lemma {:induction false} WindowReaches(windowSecs: real, ts: seq<real>)
    ensures var k := WindowStart(windowSecs, ts); forall j :: k < j < |ts| ==> ts[j] - ts[k] <= windowSecs
  {
    if |ts| > 1 {
      WindowReaches(windowSecs, Init(ts));
    }
  }

  /** The count and the anchor are those of the latest window over these times. */
  ghost predicate CountsWindow(cfg: Config, c: Core, ts: seq<real>) {
    && c.failureCount == InLatestWindow(cfg.failWindowSecs, ts)
    && c.firstFailureAt == if ts == [] then None else Some(ts[WindowStart(cfg.failWindowSecs, ts)])
  }

  lemma FailureEntersWindow(cfg: Config, c: Core, ts: seq<real>, now: real)
    requires c.state != HalfOpen && CountsWindow(cfg, c, ts)
    ensures CountsWindow(cfg, AfterFailure(cfg, c, now), ts + [now])
  {
    InitSnoc(ts, now);
  }

  /** In every reachable state, CLOSED or not, the count and the anchor are those of the latest window over the
      counted failures; while CLOSED these are the whole streak. */
  lemma {:induction false} CountIsTheLatestWindow(cfg: Config, es: seq<Event>)
    requires cfg.failThreshold >= 1
    ensures CountsWindow(cfg, Run(cfg, FRESH, es), CountedFailures(cfg, es))
    ensures Run(cfg, FRESH, es).state == Closed ==> CountedFailures(cfg, es) == Streak(es)
  {
    if es != [] {
      var c := Run(cfg, FRESH, Init(es));
      CountIsTheLatestWindow(cfg, Init(es));
      if Last(es).Failure? && c.state != HalfOpen {
        FailureEntersWindow(cfg, c, CountedFailures(cfg, Init(es)), Last(es).now);
      }
    }
  }

  /** A breaker trips only on a failure, and only when the last failThreshold recorded outcomes are
      failures, all since the last success or reset (hence since the last close), none of them more
      than the window after the first. */
  lemma TripSoundness(cfg: Config, es: seq<Event>, e: Event)
    requires cfg.failThreshold >= 1
    requires Run(cfg, FRESH, es).state == Closed
    requires Run(cfg, FRESH, es + [e]).state == Open
    ensures e.Failure?
    ensures var streak := Streak(es + [e]);
            var n := cfg.failThreshold;
            && n <= |streak| && Last(streak) == e.now
            && forall k :: |streak| - n < k < |streak| ==> streak[k] - streak[|streak| - n] <= cfg.failWindowSecs
  {
    RunSnoc(cfg, FRESH, es, e);
    ReachableIsConsistent(cfg, es);
    CountIsTheLatestWindow(cfg, es);
    InitSnoc(es, e);
    WindowReaches(cfg.failWindowSecs, Streak(es));
    var c, streak := Run(cfg, FRESH, es), Streak(es + [e]);
    if !StartsNewWindow(cfg, c, e.now) {
      assert streak == Streak(es) + [e.now];
      assert |streak| - cfg.failThreshold == WindowStart(cfg.failWindowSecs, Streak(es));
    }
  }

  /** A breaker that is not CLOSED is closed by a success recorded in HALF_OPEN and by an operator reset, and by
      nothing else. Either leaves nothing behind. */
  lemma ClosesExactlyOnProbeSuccessOrReset(cfg: Config, es: seq<Event>, e: Event)
    requires cfg.failThreshold >= 1
    requires Run(cfg, FRESH, es).state != Closed
    ensures Run(cfg, FRESH, es + [e]).state == Closed <==>
              e.Reset? || (e.Success? && Run(cfg, FRESH, es).state == HalfOpen)
    ensures Run(cfg, FRESH, es + [e]).state == Closed ==>
              Run(cfg, FRESH, es + [e]) == FRESH && Streak(es + [e]) == []
  {
    RunSnoc(cfg, FRESH, es, e);
    ReachableIsConsistent(cfg, es);
  }

  // ---------------------------------------------------------------------------------------------
  // Detection bound
  // ---------------------------------------------------------------------------------------------

  /** Failures and refused or admitted calls only, with every failure sampled in [start, start + window]. */
  ghost predicate FailingSpan(cfg: Config, es: seq<Event>, start: real) {
    && (forall i :: 0 <= i < |es| ==> es[i].Timed())
    && (forall i :: 0 <= i < |es| && es[i].Failure? ==> start <= es[i].now <= start + cfg.failWindowSecs)
  }

  function Failures(es: seq<Event>): nat {
    if es == [] then 0 else Failures(Init(es)) + if Last(es).Failure? then 1 else 0
  }

  /** Progress of a span: not CLOSED any more; or counting in a window opened inside the span, having
      lost at most failThreshold - 2 failures to the old one; or still in the older window, none lost. */
  ghost predicate Detecting(cfg: Config, c: Core, start: real, seen: nat) {
    || c.state != Closed
    || (c.firstFailureAt.None? && seen == 0)
    || (c.firstFailureAt.Some? &&
        if c.firstFailureAt.value >= start
        then seen <= c.failureCount + cfg.failThreshold - 2
        else seen + 1 <= c.failureCount)
  }

  lemma {:induction false} SpanMakesProgress(cfg: Config, c: Core, es: seq<Event>, start: real)
    requires cfg.failThreshold >= 2
    requires Consistent(cfg, c) && c.state == Closed
    requires FailingSpan(cfg, es, start)
    ensures Consistent(cfg, Run(cfg, c, es))
    ensures Detecting(cfg, Run(cfg, c, es), start, Failures(es))
  {
    if es != [] {
      assert FailingSpan(cfg, Init(es), start) by {
        forall i | 0 <= i < |Init(es)| ensures Init(es)[i] == es[i] {}
      }
      SpanMakesProgress(cfg, c, Init(es), start);
      var e := es[|es| - 1];
      assert e.Timed();
    }
  }

  /** From any reachable CLOSED state, 2 * failThreshold - 2 failures within one window's length, with
      no success or reset between them, leave the breaker OPEN, whatever calls are attempted meanwhile. */
  lemma DetectionBound(cfg: Config, past: seq<Event>, es: seq<Event>, start: real)
    requires cfg.failThreshold >= 2
    requires Run(cfg, FRESH, past).state == Closed
    requires FailingSpan(cfg, es, start)
    requires es != [] && Last(es).Failure?
    requires Failures(es) >= 2 * cfg.failThreshold - 2
    ensures Run(cfg, FRESH, past + es).state == Open
  {
    var c := Run(cfg, FRESH, past);
    ReachableIsConsistent(cfg, past);
    RunConcat(cfg, FRESH, past, es);
    SpanMakesProgress(cfg, c, es, start);
  }

  /** The same failure n times over. */
  function Burst(n: nat, at: real): seq<Event> {
    if n == 0 then [] else Burst(n - 1, at) + [Failure(at)]
  }

  ghost predicate AllFailuresAt(es: seq<Event>, at: real) {
    forall e :: e in es ==> e == Failure(at)
  }

  lemma {:induction false} BurstIsAllFailures(n: nat, at: real)
    ensures |Burst(n, at)| == n && AllFailuresAt(Burst(n, at), at)
  {
    if n > 0 {
      BurstIsAllFailures(n - 1, at);
    }
  }

  lemma {:induction false} CountOfAllFailures(es: seq<Event>, at: real)
    requires AllFailuresAt(es, at)
    ensures Failures(es) == |es|
  {
    if es != [] {
      assert Last(es) in es && forall e :: e in Init(es) ==> e in es;
      CountOfAllFailures(Init(es), at);
    }
  }

  lemma {:induction false} FailuresConcat(es: seq<Event>, fs: seq<Event>)
    ensures Failures(es + fs) == Failures(es) + Failures(fs)
  {
    if fs == [] {
      assert es + fs == es;
    } else {
      assert Init(es + fs) == es + Init(fs);
      FailuresConcat(es, Init(fs));
    }
  }

  /** Failures that all fall in the window already open. */
  lemma {:induction false} BurstInOpenWindow(cfg: Config, c: Core, es: seq<Event>, at: real)
    requires AllFailuresAt(es, at)
    requires c.state == Closed && c.firstFailureAt.Some?
    requires at - c.firstFailureAt.value <= cfg.failWindowSecs
    requires c.failureCount + |es| < cfg.failThreshold
    ensures Run(cfg, c, es) == c.(failureCount := c.failureCount + |es|)
  {
    if es != [] {
      assert Last(es) in es && forall e :: e in Init(es) ==> e in es;
      BurstInOpenWindow(cfg, c, Init(es), at);
    }
  }

  /** Failures that all fall after the window already open. */
  lemma BurstAfterWindow(cfg: Config, c: Core, es: seq<Event>, at: real)
    requires AllFailuresAt(es, at)
    requires c.state == Closed && c.firstFailureAt.Some? && cfg.failWindowSecs >= 0.0
    requires at - c.firstFailureAt.value > cfg.failWindowSecs
    requires 1 <= |es| < cfg.failThreshold
    ensures Run(cfg, c, es).state == Closed
  {
    var first, rest := es[..1], es[1..];
    assert es == first + rest && es[0] in es && forall e :: e in rest ==> e in es;
    assert first == [Failure(at)] && AllFailuresAt(rest, at);
    RunConcat(cfg, c, first, rest);
    var reopened := c.(failureCount := 1, firstFailureAt := Some(at));
    assert Run(cfg, c, first) == reopened by {
      assert Init(first) == [] && Run(cfg, c, []) == c;
    }
    BurstInOpenWindow(cfg, reopened, rest, at);
  }

  /** The failures that escape detection: threshold - 2 at the very end of the open window, then
      threshold - 1 in the next one. */
  function EscapingRun(cfg: Config): seq<Event>
    requires cfg.failThreshold >= 2
  {
    Burst(cfg.failThreshold - 2, cfg.failWindowSecs) + Burst(cfg.failThreshold - 1, cfg.failWindowSecs + cfg.failWindowSecs)
  }

  lemma Escaping(cfg: Config, c: Core, es: seq<Event>, fs: seq<Event>)
    requires cfg.failThreshold >= 2 && cfg.failWindowSecs > 0.0
    requires c.state == Closed && c.failureCount == 1 && c.firstFailureAt == Some(0.0)
    requires |es| == cfg.failThreshold - 2 && AllFailuresAt(es, cfg.failWindowSecs)
    requires |fs| == cfg.failThreshold - 1 && AllFailuresAt(fs, cfg.failWindowSecs + cfg.failWindowSecs)
    ensures FailingSpan(cfg, es + fs, cfg.failWindowSecs)
    ensures Failures(es + fs) == 2 * cfg.failThreshold - 3
    ensures Run(cfg, c, es + fs).state == Closed
  {
    var w := cfg.failWindowSecs;
    CountOfAllFailures(es, w);
    CountOfAllFailures(fs, w + w);
    FailuresConcat(es, fs);
    forall i | 0 <= i < |es + fs| ensures (es + fs)[i] == Failure(w) || (es + fs)[i] == Failure(w + w) {
      assert (es + fs)[i] in es || (es + fs)[i] in fs;
    }
    RunConcat(cfg, c, es, fs);
    BurstInOpenWindow(cfg, c, es, w);
    BurstAfterWindow(cfg, Run(cfg, c, es), fs, w + w);
  }

  /** The bound is tight for every threshold and window: after one old failure, 2 * failThreshold - 3
      failures spanning exactly one window's length leave the breaker CLOSED. */
  lemma DetectionBoundIsTight(cfg: Config)
    requires cfg.failThreshold >= 2 && cfg.failWindowSecs > 0.0
    ensures Run(cfg, FRESH, [Failure(0.0)]).state == Closed
    ensures FailingSpan(cfg, EscapingRun(cfg), cfg.failWindowSecs)
    ensures Failures(EscapingRun(cfg)) == 2 * cfg.failThreshold - 3
    ensures Run(cfg, FRESH, [Failure(0.0)] + EscapingRun(cfg)).state == Closed
  {
    var past, w := [Failure(0.0)], cfg.failWindowSecs;
    var c := Run(cfg, FRESH, past);
    assert Init(past) == [] && Run(cfg, FRESH, []) == FRESH;
    assert c == FRESH.(failureCount := 1, firstFailureAt := Some(0.0));
    BurstIsAllFailures(cfg.failThreshold - 2, w);
    BurstIsAllFailures(cfg.failThreshold - 1, w + w);
    Escaping(cfg, c, Burst(cfg.failThreshold - 2, w), Burst(cfg.failThreshold - 1, w + w));
    RunConcat(cfg, FRESH, past, EscapingRun(cfg));
  }

  // ---------------------------------------------------------------------------------------------
  // What failThreshold failures in a window really do
  // ---------------------------------------------------------------------------------------------

  ghost predicate Ascending(ts: seq<real>) {
    forall i, j :: 0 <= i <= j < |ts| ==> ts[i] <= ts[j]
  }

  function FailuresAt(ts: seq<real>): seq<Event> {
    if ts == [] then [] else FailuresAt(Init(ts)) + [Failure(Last(ts))]
  }

  /** How many of the failures, in order, still fall in the window anchored at the given failure. */
  function StillInWindow(cfg: Config, anchor: real, ts: seq<real>): nat {
    if ts == [] then 0
    else StillInWindow(cfg, anchor, Init(ts)) + if Last(ts) - anchor <= cfg.failWindowSecs then 1 else 0
  }

  ghost predicate TripsByCount(cfg: Config, c: Core, k: nat, ts: seq<real>) {
    var inOld := StillInWindow(cfg, c.firstFailureAt.GetOr(0.0), ts);
    if c.failureCount == 0 then k >= cfg.failThreshold
    else c.failureCount + inOld >= cfg.failThreshold || k - inOld >= cfg.failThreshold
  }

  /** r is the state after the failures: tripped by count, or CLOSED and counting in the older window, or
      in the one opened by the first failure that fell outside it. */
  ghost predicate Counted(cfg: Config, c: Core, ts: seq<real>, r: Core) {
    var inOld := StillInWindow(cfg, c.firstFailureAt.GetOr(0.0), ts);
    if TripsByCount(cfg, c, |ts|, ts) then r.state == Open
    else
      && r.state == Closed
      && r.failureCount == (if c.failureCount > 0 && inOld == |ts| then c.failureCount + |ts|
                            else if c.failureCount > 0 then |ts| - inOld else |ts|)
      && r.firstFailureAt == (if ts == [] || (c.failureCount > 0 && inOld == |ts|) then c.firstFailureAt
                              else Some(ts[if c.failureCount > 0 then inOld else 0]))
  }

  ghost predicate OneSpan(cfg: Config, ts: seq<real>) {
    Ascending(ts) && (ts != [] ==> Last(ts) - ts[0] <= cfg.failWindowSecs)
  }

  lemma {:induction false} OldWindowIsAPrefix(cfg: Config, anchor: real, ts: seq<real>)
    requires Ascending(ts)
    ensures StillInWindow(cfg, anchor, ts) <= |ts|
    ensures StillInWindow(cfg, anchor, ts) < |ts| ==> Last(ts) - anchor > cfg.failWindowSecs
    ensures StillInWindow(cfg, anchor, ts) == 0 && ts != [] <==> ts != [] && ts[0] - anchor > cfg.failWindowSecs
  {
    if ts != [] {
      OldWindowIsAPrefix(cfg, anchor, Init(ts));
    }
  }

  lemma CountedStep(cfg: Config, c: Core, ts: seq<real>, r: Core)
    requires cfg.failThreshold >= 1
    requires Consistent(cfg, c) && c.state == Closed
    requires ts != [] && OneSpan(cfg, ts) && Counted(cfg, c, Init(ts), r)
    ensures Counted(cfg, c, ts, AfterFailure(cfg, r, Last(ts)))
  {
    OldWindowIsAPrefix(cfg, c.firstFailureAt.GetOr(0.0), ts);
    OldWindowIsAPrefix(cfg, c.firstFailureAt.GetOr(0.0), Init(ts));
  }

  lemma {:induction false} CountAfterFailures(cfg: Config, c: Core, ts: seq<real>)
    requires cfg.failThreshold >= 1
    requires Consistent(cfg, c) && c.state == Closed
    requires OneSpan(cfg, ts)
    ensures Counted(cfg, c, ts, Run(cfg, c, FailuresAt(ts)))
  {
    if ts != [] {
      var prev := Init(ts);
      RunSnoc(cfg, c, FailuresAt(prev), Failure(Last(ts)));
      CountAfterFailures(cfg, c, prev);
      CountedStep(cfg, c, ts, Run(cfg, c, FailuresAt(prev)));
    }
  }

  /** The module promises that failThreshold consecutive failures within the window trip the breaker.
      The window being anchored, they do so from a reachable CLOSED state exactly when no older failure
      is counted, or the first of them already falls outside the older window, or enough of them fall
      inside it. */
  lemma ThresholdFailuresTripExactlyWhen(cfg: Config, past: seq<Event>, ts: seq<real>)
    requires cfg.failThreshold >= 1
    requires Run(cfg, FRESH, past).state == Closed
    requires OneSpan(cfg, ts) && |ts| == cfg.failThreshold
    ensures var c := Run(cfg, FRESH, past);
            Run(cfg, FRESH, past + FailuresAt(ts)).state == Open <==>
              || c.failureCount == 0
              || ts[0] - c.firstFailureAt.GetOr(0.0) > cfg.failWindowSecs
              || c.failureCount + StillInWindow(cfg, c.firstFailureAt.GetOr(0.0), ts) >= cfg.failThreshold
  {
    var c := Run(cfg, FRESH, past);
    ReachableIsConsistent(cfg, past);
    RunConcat(cfg, FRESH, past, FailuresAt(ts));
    CountAfterFailures(cfg, c, ts);
    OldWindowIsAPrefix(cfg, c.firstFailureAt.GetOr(0.0), ts);
  }

  // ---------------------------------------------------------------------------------------------
  // How long the gate stays shut
  // ---------------------------------------------------------------------------------------------

  /** Event k starts a cooldown: a failed probe, or a failure with which the latest window reaches the threshold. */
  ghost predicate StartsCooldown(cfg: Config, es: seq<Event>, k: nat)
    requires k < |es|
  {
    && es[k].Failure?
    && (Run(cfg, FRESH, es[..k]).state == HalfOpen
        || InLatestWindow(cfg.failWindowSecs, CountedFailures(cfg, es[..k + 1])) >= cfg.failThreshold)
  }

  ghost predicate LastCooldownStart(cfg: Config, es: seq<Event>, k: int) {
    0 <= k < |es| && StartsCooldown(cfg, es, k) && forall j :: k < j < |es| ==> !StartsCooldown(cfg, es, j)
  }

  lemma StartsCooldownBefore(cfg: Config, es: seq<Event>, e: Event, k: nat)
    requires k < |es|
    ensures StartsCooldown(cfg, es + [e], k) <==> StartsCooldown(cfg, es, k)
  {
    assert (es + [e])[..k] == es[..k] && (es + [e])[..k + 1] == es[..k + 1];
  }

  lemma StartsCooldownByCount(cfg: Config, es: seq<Event>, k: nat)
    requires cfg.failThreshold >= 1 && k < |es|
    ensures StartsCooldown(cfg, es, k) <==>
              && es[k].Failure?
              && (Run(cfg, FRESH, es[..k]).state == HalfOpen
                  || Run(cfg, FRESH, es[..k + 1]).failureCount >= cfg.failThreshold)
  {
    CountIsTheLatestWindow(cfg, es[..k + 1]);
  }

  lemma StartsCooldownNow(cfg: Config, es: seq<Event>, e: Event)
    requires cfg.failThreshold >= 1
    ensures Run(cfg, FRESH, es + [e]) == Step(cfg, Run(cfg, FRESH, es), e)
    ensures StartsCooldown(cfg, es + [e], |es|) <==>
              e.Failure? && (Run(cfg, FRESH, es).state == HalfOpen || Run(cfg, FRESH, es + [e]).failureCount >= cfg.failThreshold)
  {
    RunSnoc(cfg, FRESH, es, e);
    StartsCooldownByCount(cfg, es + [e], |es|);
    PrefixesOfSnoc(es, e);
  }

  lemma PrefixesOfSnoc(es: seq<Event>, e: Event)
    ensures (es + [e])[..|es|] == es && (es + [e])[..|es| + 1] == es + [e]
  {
  }

  lemma {:induction false} OpenedAtLastCooldownStart(cfg: Config, es: seq<Event>) returns (k: int)
    requires cfg.failThreshold >= 1
    ensures Run(cfg, FRESH, es).state != Closed ==>
              LastCooldownStart(cfg, es, k) && Run(cfg, FRESH, es).openedAt == Some(es[k].now)
  {
    k := 0;
    if es != [] {
      var prev, e := Init(es), Last(es);
      assert es == prev + [e];
      var before := OpenedAtLastCooldownStart(cfg, prev);
      ReachableIsConsistent(cfg, prev);
      StartsCooldownNow(cfg, prev, e);
      forall j | 0 <= j < |prev| ensures StartsCooldown(cfg, es, j) <==> StartsCooldown(cfg, prev, j) {
        StartsCooldownBefore(cfg, prev, e, j);
      }
      k := if StartsCooldown(cfg, es, |prev|) then |prev| else before;
    }
  }

  /** The gate over every history: CLOSED admits always, HALF_OPEN never, and OPEN exactly from a cooldown after
      the failure that started the last cooldown, no sooner and no later. */
  lemma GateOpensExactlyAfterCooldown(cfg: Config, es: seq<Event>) returns (k: int)
    requires cfg.failThreshold >= 1
    ensures Run(cfg, FRESH, es).state == Closed ==> forall now :: Admits(cfg, Run(cfg, FRESH, es), now)
    ensures Run(cfg, FRESH, es).state == HalfOpen ==> forall now :: !Admits(cfg, Run(cfg, FRESH, es), now)
    ensures Run(cfg, FRESH, es).state == Open ==>
              && LastCooldownStart(cfg, es, k)
              && forall now :: Admits(cfg, Run(cfg, FRESH, es), now) <==> now - es[k].now >= cfg.resetTimeoutSecs
  {
    ReachableIsConsistent(cfg, es);
    k := OpenedAtLastCooldownStart(cfg, es);
  }

  /** The failure of a probe reopens, and so may one recorded while CLOSED; either shuts the gate for exactly one
      cooldown from its own time. */
  lemma OpeningShutsForOneCooldown(cfg: Config, es: seq<Event>, now: real)
    requires cfg.failThreshold >= 1 && Run(cfg, FRESH, es).state != Open
    ensures var after := Run(cfg, FRESH, es + [Failure(now)]);
            && (Run(cfg, FRESH, es).state == HalfOpen ==> after.state == Open)
            && (after.state == Open ==> forall t :: Admits(cfg, after, t) <==> t - now >= cfg.resetTimeoutSecs)
            && (after.state != Open ==> after.state == Closed)
  {
    ReachableIsConsistent(cfg, es);
    RunSnoc(cfg, FRESH, es, Failure(now));
  }

  // ---------------------------------------------------------------------------------------------
  // Probes are spaced by the cooldown
  // ---------------------------------------------------------------------------------------------

  /** Clock samples do not go backwards in the order in which the lock is taken. */
  ghost predicate Monotone(es: seq<Event>) {
    forall i, j :: 0 <= i <= j < |es| && es[i].Timed() && es[j].Timed() ==> es[i].now <= es[j].now
  }

  /** Step i of the run lets a probe through: OPEN becomes HALF_OPEN. */
  ghost predicate ProbeAt(cfg: Config, es: seq<Event>, i: nat)
    requires i < |es|
  {
    Run(cfg, FRESH, es[..i]).state == Open && Run(cfg, FRESH, es[..i + 1]).state == HalfOpen
  }

  lemma RunPrefix(cfg: Config, es: seq<Event>, i: nat)
    requires i < |es|
    ensures Run(cfg, FRESH, es[..i + 1]) == Step(cfg, Run(cfg, FRESH, es[..i]), es[i])
  {
    assert es[..i + 1] == es[..i] + [es[i]];
    RunSnoc(cfg, FRESH, es[..i], es[i]);
  }

  lemma ReopenedNoEarlier(cfg: Config, c: Core, e: Event, t: real)
    requires Consistent(cfg, c)
    requires c.state == Open ==> c.openedAt.value >= t
    requires e.Failure? ==> e.now >= t
    ensures var d := Step(cfg, c, e); d.state == Open ==> d.openedAt.Some? && d.openedAt.value >= t
  {
  }

  /** After a probe was let through, an OPEN breaker was opened no earlier than that probe. */
  lemma {:induction false} OpenedAfterProbe(cfg: Config, es: seq<Event>, i: nat, k: nat)
    requires cfg.failThreshold >= 1
    requires Monotone(es) && i < k <= |es| && ProbeAt(cfg, es, i)
    ensures es[i].Before?
    ensures var c := Run(cfg, FRESH, es[..k]);
            c.state == Open ==> c.openedAt.Some? && c.openedAt.value >= es[i].now
    decreases k
  {
    RunPrefix(cfg, es, i);
    if k > i + 1 {
      OpenedAfterProbe(cfg, es, i, k - 1);
      RunPrefix(cfg, es, k - 1);
      ReachableIsConsistent(cfg, es[..k - 1]);
      ReopenedNoEarlier(cfg, Run(cfg, FRESH, es[..k - 1]), es[k - 1], es[i].now);
    }
  }

  /** Any two OPEN to HALF_OPEN steps are at least the cooldown apart, whatever late results, successes
      or resets come between them. */
  lemma ProbesAreSpaced(cfg: Config, es: seq<Event>, i: nat, j: nat)
    requires cfg.failThreshold >= 1
    requires Monotone(es) && i < j < |es|
    requires ProbeAt(cfg, es, i) && ProbeAt(cfg, es, j)
    ensures es[i].Before? && es[j].Before?
    ensures es[j].now - es[i].now >= cfg.resetTimeoutSecs
  {
    OpenedAfterProbe(cfg, es, i, j);
    OpenedAfterProbe(cfg, es, j, j + 1);
    RunPrefix(cfg, es, j);
  }

  // ---------------------------------------------------------------------------------------------
  // Concurrent calls
  // ---------------------------------------------------------------------------------------------

  /** The breaker together with the calls it has admitted and whose outcome is not recorded yet, each
      with its admission time. */
  datatype System = System(core: Core, unfinished: map<int, real>, now: real)

  datatype Action = Begin(id: int, at: real) | Finish(id: int, ok: bool, at: real) | Intervene(at: real)

  const IDLE := System(FRESH, map[], 0.0)

  predicate Enabled(s: System, a: Action) {
    && s.now <= a.at
    && (a.Begin? ==> a.id !in s.unfinished)
    && (a.Finish? ==> a.id in s.unfinished)
  }

  function Apply(cfg: Config, s: System, a: Action): System {
    match a
    case Begin(id, at) =>
      System(AfterGate(cfg, s.core, at),
             if Admits(cfg, s.core, at) then s.unfinished[id := at] else s.unfinished, at)
    case Finish(id, ok, at) =>
      System(if ok then AfterSuccess(s.core) else AfterFailure(cfg, s.core, at), s.unfinished - {id}, at)
    case Intervene(at) => System(FRESH, s.unfinished, at)
  }

  function Exec(cfg: Config, acts: seq<Action>): System {
    if acts == [] then IDLE else Apply(cfg, Exec(cfg, Init(acts)), Last(acts))
  }

  /** The actions can happen in this order: calls begin once, only begun calls finish, time goes on. */
  predicate Feasible(cfg: Config, acts: seq<Action>) {
    acts != [] ==> Feasible(cfg, Init(acts)) && Enabled(Exec(cfg, Init(acts)), Last(acts))
  }

  /** Exactly one admitted call is unfinished, every further call is refused, and the outcome of that
      call alone decides between CLOSED and OPEN. */
  ghost predicate SoleProbe(cfg: Config, s: System) {
    exists id :: SoleProbeIs(cfg, s, id)
  }

  ghost predicate SoleProbeIs(cfg: Config, s: System, id: int) {
    && s.unfinished.Keys == {id}
    && RefusesAll(cfg, s.core)
    && (forall at :: s.now <= at ==>
          && Apply(cfg, s, Finish(id, true, at)).core.state == Closed
          && Apply(cfg, s, Finish(id, false, at)).core.state == Open)
  }

  ghost predicate RefusesAll(cfg: Config, c: Core) {
    forall at :: !Admits(cfg, c, at) && AfterGate(cfg, c, at) == c
  }

  ghost predicate AlwaysSoleProbe(cfg: Config, acts: seq<Action>) {
    forall k :: 0 <= k <= |acts| && Exec(cfg, acts[..k]).core.state == HalfOpen ==> SoleProbe(cfg, Exec(cfg, acts[..k]))
  }

  ghost predicate NothingUnfinished(s: System) {
    forall id :: id !in s.unfinished
  }

  /** Action k lets a probe through. */
  ghost predicate LetsProbe(cfg: Config, acts: seq<Action>, k: nat)
    requires k < |acts|
  {
    Exec(cfg, acts[..k]).core.state == Open && Exec(cfg, acts[..k + 1]).core.state == HalfOpen
  }

  /** OPEN, and last entered from HALF_OPEN by a failed probe rather than by a trip from CLOSED. */
  ghost predicate Reopened(cfg: Config, acts: seq<Action>) {
    && acts != []
    && Exec(cfg, acts).core.state == Open
    && (Exec(cfg, Init(acts)).core.state == HalfOpen || Reopened(cfg, Init(acts)))
  }

  /** Nothing is unfinished when a probe is let through for the first time after a trip. */
  ghost predicate QuietAtTrips(cfg: Config, acts: seq<Action>) {
    forall k :: 0 <= k < |acts| && LetsProbe(cfg, acts, k) && !Reopened(cfg, acts[..k]) ==>
                  NothingUnfinished(Exec(cfg, acts[..k]))
  }

  /** The unfinished calls that have been running while the breaker was CLOSED. */
  ghost function ClosedEra(cfg: Config, acts: seq<Action>): set<int> {
    var s := Exec(cfg, acts);
    if acts == [] || s.core.state == Closed then s.unfinished.Keys
    else ClosedEra(cfg, Init(acts)) * s.unfinished.Keys
  }

  /** Every CLOSED-era call is recorded by the time the cooldown is over and a probe is let through. */
  ghost predicate ClosedEraEndsInTime(cfg: Config, acts: seq<Action>) {
    forall k, id :: 0 <= k < |acts| && LetsProbe(cfg, acts, k) ==> id !in ClosedEra(cfg, acts[..k])
  }

  lemma ExecPrefix(cfg: Config, acts: seq<Action>, k: nat)
    requires k < |acts|
    ensures Exec(cfg, acts[..k + 1]) == Apply(cfg, Exec(cfg, acts[..k]), acts[k])
    ensures Feasible(cfg, acts[..k + 1]) <==> Feasible(cfg, acts[..k]) && Enabled(Exec(cfg, acts[..k]), acts[k])
  {
    assert Init(acts[..k + 1]) == acts[..k];
  }

  lemma {:induction false} PrefixFeasible(cfg: Config, acts: seq<Action>, k: nat)
    requires Feasible(cfg, acts) && k <= |acts|
    ensures Feasible(cfg, acts[..k])
    decreases |acts| - k
  {
    if k == |acts| {
      assert acts[..k] == acts;
    } else {
      PrefixFeasible(cfg, acts, k + 1);
      ExecPrefix(cfg, acts, k);
    }
  }

  lemma {:induction false} ExecConsistent(cfg: Config, acts: seq<Action>)
    requires cfg.failThreshold >= 1
    ensures Consistent(cfg, Exec(cfg, acts).core)
  {
    if acts != [] {
      ExecConsistent(cfg, Init(acts));
    }
  }

  lemma LoneCallIsSoleProbe(cfg: Config, s: System, id: int)
    requires Consistent(cfg, s.core) && s.core.state == HalfOpen && s.unfinished.Keys == {id}
    ensures SoleProbe(cfg, s)
  {
    assert SoleProbeIs(cfg, s, id);
  }

  /** Quiet at trips is enough: a failed sole probe leaves nothing unfinished, so re-probes start quiet. */
  lemma {:induction false} QuietMeansSole(cfg: Config, acts: seq<Action>, k: nat)
    requires cfg.failThreshold >= 1
    requires Feasible(cfg, acts) && QuietAtTrips(cfg, acts) && k <= |acts|
    ensures Exec(cfg, acts[..k]).core.state == HalfOpen ==> exists id :: Exec(cfg, acts[..k]).unfinished.Keys == {id}
    ensures Reopened(cfg, acts[..k]) ==> NothingUnfinished(Exec(cfg, acts[..k]))
  {
    if k > 0 {
      QuietMeansSole(cfg, acts, k - 1);
      PrefixFeasible(cfg, acts, k);
      ExecPrefix(cfg, acts, k - 1);
      ExecConsistent(cfg, acts[..k - 1]);
      assert Init(acts[..k]) == acts[..k - 1];
      var before, after := Exec(cfg, acts[..k - 1]), Exec(cfg, acts[..k]);
      if before.core.state == HalfOpen {
        var id :| before.unfinished.Keys == {id};
        SoleCallStep(cfg, before, acts[k - 1], id);
      } else if after.core.state == HalfOpen {
        assert LetsProbe(cfg, acts, k - 1);
        assert forall id :: id in after.unfinished.Keys <==> id == acts[k - 1].id;
        assert after.unfinished.Keys == {acts[k - 1].id};
      }
    }
  }

  /** In HALF_OPEN with one call unfinished nothing else is admitted, and its failure leaves nothing. */
  lemma SoleCallStep(cfg: Config, s: System, a: Action, id: int)
    requires Consistent(cfg, s.core) && s.core.state == HalfOpen && s.unfinished.Keys == {id} && Enabled(s, a)
    ensures var t := Apply(cfg, s, a);
            && (t.core.state == HalfOpen ==> t.unfinished == s.unfinished)
            && (t.core.state == Open ==> NothingUnfinished(t))
  {
    if a.Finish? {
      assert a.id in s.unfinished.Keys;
      forall other ensures other !in s.unfinished - {a.id} {
        assert other in s.unfinished ==> other in s.unfinished.Keys;
      }
    }
  }

  /** "Exactly one call allowed through": it is true of a run exactly when, at every first probe after a
      trip, no earlier call is still unfinished. A late result is otherwise taken for the probe's. */
  lemma SoleProbeExactlyWhenQuiet(cfg: Config, acts: seq<Action>)
    requires cfg.failThreshold >= 1
    requires Feasible(cfg, acts)
    ensures AlwaysSoleProbe(cfg, acts) <==> QuietAtTrips(cfg, acts)
  {
    if QuietAtTrips(cfg, acts) {
      forall k | 0 <= k <= |acts| && Exec(cfg, acts[..k]).core.state == HalfOpen
        ensures SoleProbe(cfg, Exec(cfg, acts[..k]))
      {
        QuietMeansSole(cfg, acts, k);
        ExecConsistent(cfg, acts[..k]);
        var id :| Exec(cfg, acts[..k]).unfinished.Keys == {id};
        LoneCallIsSoleProbe(cfg, Exec(cfg, acts[..k]), id);
      }
    }
    if AlwaysSoleProbe(cfg, acts) {
      forall k | 0 <= k < |acts| && LetsProbe(cfg, acts, k)
        ensures NothingUnfinished(Exec(cfg, acts[..k]))
      {
        PrefixFeasible(cfg, acts, k + 1);
        SoleAfterMeansQuietBefore(cfg, acts, k);
      }
    }
  }

  /** Between a trip and its first probe every unfinished call is of the CLOSED era. */
  lemma {:induction false} TripLeavesClosedEra(cfg: Config, acts: seq<Action>)
    requires cfg.failThreshold >= 1 && Feasible(cfg, acts)
    ensures var s := Exec(cfg, acts);
            && ClosedEra(cfg, acts) <= s.unfinished.Keys
            && (s.core.state == Open && !Reopened(cfg, acts) ==> ClosedEra(cfg, acts) == s.unfinished.Keys)
  {
    if acts != [] {
      TripLeavesClosedEra(cfg, Init(acts));
      ExecConsistent(cfg, Init(acts));
      var before, after := Exec(cfg, Init(acts)), Exec(cfg, acts);
      if after.core.state == Open && !Reopened(cfg, acts) {
        assert ClosedEra(cfg, Init(acts)) == before.unfinished.Keys;
        forall id | id in after.unfinished ensures id in before.unfinished {}
      }
    }
  }

  /** One unfinished call in HALF_OPEN that decides alone: exactly the runs in which every call running while
      the breaker was CLOSED is recorded by the time a probe is let through, whatever the probes take. */
  lemma SoleProbeExactlyWhenClosedEraEnds(cfg: Config, acts: seq<Action>)
    requires cfg.failThreshold >= 1
    requires Feasible(cfg, acts)
    ensures AlwaysSoleProbe(cfg, acts) <==> ClosedEraEndsInTime(cfg, acts)
  {
    SoleProbeExactlyWhenQuiet(cfg, acts);
    if ClosedEraEndsInTime(cfg, acts) {
      forall k | 0 <= k < |acts| && LetsProbe(cfg, acts, k) && !Reopened(cfg, acts[..k])
        ensures NothingUnfinished(Exec(cfg, acts[..k]))
      {
        PrefixFeasible(cfg, acts, k);
        TripLeavesClosedEra(cfg, acts[..k]);
      }
    }
    if AlwaysSoleProbe(cfg, acts) {
      forall k, id | 0 <= k < |acts| && LetsProbe(cfg, acts, k)
        ensures id !in ClosedEra(cfg, acts[..k])
      {
        PrefixFeasible(cfg, acts, k);
        PrefixFeasible(cfg, acts, k + 1);
        SoleAfterMeansQuietBefore(cfg, acts, k);
        TripLeavesClosedEra(cfg, acts[..k]);
      }
    }
  }

  lemma SoleAfterMeansQuietBefore(cfg: Config, acts: seq<Action>, k: nat)
    requires k < |acts| && Feasible(cfg, acts[..k + 1]) && LetsProbe(cfg, acts, k)
    requires SoleProbe(cfg, Exec(cfg, acts[..k + 1]))
    ensures NothingUnfinished(Exec(cfg, acts[..k]))
  {
    ExecPrefix(cfg, acts, k);
    var s, t, a := Exec(cfg, acts[..k]), Exec(cfg, acts[..k + 1]), acts[k];
    var id :| SoleProbeIs(cfg, t, id);
    assert t.unfinished == s.unfinished[a.id := a.at];
    assert a.id in t.unfinished.Keys;
    forall other ensures other !in s.unfinished {
      assert other in s.unfinished ==> other in t.unfinished.Keys;
    }
  }

  /** No call that runs while the breaker is CLOSED stays unfinished for more than maxCallSecs. Probes may. */
  ghost predicate Punctual(cfg: Config, acts: seq<Action>, maxCallSecs: real) {
    forall k, id :: 0 <= k < |acts| && id in ClosedEra(cfg, acts[..k]) ==>
      id in Exec(cfg, acts[..k]).unfinished && acts[k].at <= Exec(cfg, acts[..k]).unfinished[id] + maxCallSecs
  }

  lemma {:induction false} AdmittedBeforeOpening(cfg: Config, acts: seq<Action>)
    requires cfg.failThreshold >= 1
    requires Feasible(cfg, acts)
    ensures var s := Exec(cfg, acts);
            && (forall id :: id in s.unfinished ==> s.unfinished[id] <= s.now)
            && (s.core.state == Open ==>
                  && s.core.openedAt.Some?
                  && forall id :: id in s.unfinished ==> s.unfinished[id] <= s.core.openedAt.value)
  {
    if acts != [] {
      AdmittedBeforeOpening(cfg, Init(acts));
      ExecConsistent(cfg, Init(acts));
    }
  }

  /** When the calls of the CLOSED era end sooner than the cooldown lasts, the probe is always the only
      unfinished call, however long it takes and also across operator resets. */
  lemma PunctualCallsGiveSoleProbe(cfg: Config, acts: seq<Action>, maxCallSecs: real)
    requires cfg.failThreshold >= 1
    requires Feasible(cfg, acts) && Punctual(cfg, acts, maxCallSecs)
    requires maxCallSecs < cfg.resetTimeoutSecs
    ensures AlwaysSoleProbe(cfg, acts)
  {
    forall k, id | 0 <= k < |acts| && LetsProbe(cfg, acts, k)
      ensures id !in ClosedEra(cfg, acts[..k])
    {
      PrefixFeasible(cfg, acts, k);
      ExecPrefix(cfg, acts, k);
      AdmittedBeforeOpening(cfg, acts[..k]);
      var s := Exec(cfg, acts[..k]);
      assert acts[k].at - s.core.openedAt.value >= cfg.resetTimeoutSecs;
    }
    SoleProbeExactlyWhenClosedEraEnds(cfg, acts);
  }

  /** One call that stays unfinished, and n others that begin and fail after it, all at time 0. */
  function FailuresBesideOne(n: nat): seq<Action> {
    if n == 0 then [Begin(0, 0.0)]
    else FailuresBesideOne(n - 1) + [Begin(n, 0.0)] + [Finish(n, false, 0.0)]
  }

  lemma ExecSnoc(cfg: Config, acts: seq<Action>, a: Action)
    ensures Exec(cfg, acts + [a]) == Apply(cfg, Exec(cfg, acts), a)
    ensures Feasible(cfg, acts + [a]) <==> Feasible(cfg, acts) && Enabled(Exec(cfg, acts), a)
  {
    InitSnoc(acts, a);
  }

  /** The breaker after n failures at time 0. */
  function FailedAtZero(cfg: Config, n: nat): Core {
    if n == 0 then FRESH
    else if n < cfg.failThreshold then Core(Closed, n, Some(0.0), None, false)
    else Core(Open, n, Some(0.0), Some(0.0), false)
  }

  lemma OneFailureMore(cfg: Config, n: nat)
    requires cfg.failWindowSecs >= 0.0 && n < cfg.failThreshold
    ensures AfterGate(cfg, FailedAtZero(cfg, n), 0.0) == FailedAtZero(cfg, n)
    ensures AfterFailure(cfg, FailedAtZero(cfg, n), 0.0) == FailedAtZero(cfg, n + 1)
  {
  }

  lemma {:induction false} FailuresBesideOneRun(cfg: Config, n: nat)
    requires cfg.failWindowSecs >= 0.0 && n <= cfg.failThreshold
    ensures Feasible(cfg, FailuresBesideOne(n))
    ensures Exec(cfg, FailuresBesideOne(n)) == System(FailedAtZero(cfg, n), map[0 := 0.0], 0.0)
  {
    if n == 0 {
      assert FailuresBesideOne(0) == [] + [Begin(0, 0.0)];
      ExecSnoc(cfg, [], Begin(0, 0.0));
    } else {
      FailuresBesideOneRun(cfg, n - 1);
      OneFailureMore(cfg, n - 1);
      ExecSnoc(cfg, FailuresBesideOne(n - 1), Begin(n, 0.0));
      ExecSnoc(cfg, FailuresBesideOne(n - 1) + [Begin(n, 0.0)], Finish(n, false, 0.0));
      assert map[0 := 0.0][n := 0.0] - {n} == map[0 := 0.0];
    }
  }

  /** For every threshold the promise of one call fails on some run: a call admitted while CLOSED is still
      unfinished when the probe is let through, and its success closes the breaker in the probe's place. */
  lemma LateCallIsTakenForTheProbe(cfg: Config)
    requires cfg.failThreshold >= 1 && cfg.failWindowSecs >= 0.0 && cfg.resetTimeoutSecs >= 0.0
    ensures var acts := FailuresBesideOne(cfg.failThreshold) + [Begin(cfg.failThreshold + 1, cfg.resetTimeoutSecs)];
            var s := Exec(cfg, acts);
            && Feasible(cfg, acts) && !AlwaysSoleProbe(cfg, acts)
            && s.core.state == HalfOpen && s.unfinished.Keys == {0, cfg.failThreshold + 1}
            && Apply(cfg, s, Finish(0, true, cfg.resetTimeoutSecs)).core.state == Closed
  {
    var n := cfg.failThreshold;
    var acts := FailuresBesideOne(n) + [Begin(n + 1, cfg.resetTimeoutSecs)];
    FailuresBesideOneRun(cfg, n);
    ExecSnoc(cfg, FailuresBesideOne(n), Begin(n + 1, cfg.resetTimeoutSecs));
    var s := Exec(cfg, acts);
    assert s.unfinished == map[0 := 0.0][n + 1 := cfg.resetTimeoutSecs];
    assert acts[..|acts|] == acts;
    assert 0 in s.unfinished.Keys && n + 1 in s.unfinished.Keys;
    forall id ensures s.unfinished.Keys != {id} {}
  }

  // ---------------------------------------------------------------------------------------------
  // When the next probe is let through
  // ---------------------------------------------------------------------------------------------

  /** Action k opens the breaker, by a trip or by a failed probe, and it has been OPEN ever since. */
  ghost predicate OpenSince(cfg: Config, acts: seq<Action>, k: nat)
    requires k < |acts|
  {
    Exec(cfg, acts[..k]).core.state != Open && forall j :: k < j <= |acts| ==> Exec(cfg, acts[..j]).core.state == Open
  }

  /** No failure is recorded later than this after action k. */
  ghost predicate FailuresEndWithin(acts: seq<Action>, k: nat, secs: real)
    requires k < |acts|
  {
    forall j :: k < j < |acts| && acts[j].Finish? && !acts[j].ok ==> acts[j].at <= acts[k].at + secs
  }

  lemma {:induction false} OpenedWithin(cfg: Config, acts: seq<Action>, k: nat, secs: real)
    requires cfg.failThreshold >= 1 && secs >= 0.0 && k < |acts|
    requires OpenSince(cfg, acts, k) && FailuresEndWithin(acts, k, secs)
    ensures var c := Exec(cfg, acts).core; c.openedAt.Some? && c.openedAt.value <= acts[k].at + secs
    decreases |acts|
  {
    var before := Init(acts);
    assert acts[..|acts|] == acts && acts[..|acts| - 1] == before;
    ExecConsistent(cfg, before);
    if k < |acts| - 1 {
      assert forall j :: 0 <= j <= |before| ==> before[..j] == acts[..j];
      assert forall j :: 0 <= j < |before| ==> before[j] == acts[j];
      OpenedWithin(cfg, before, k, secs);
    }
  }

  /** With no failure recorded later than L after the trip or the failed probe, the gate of a breaker that is still
      OPEN admits from then + L + cooldown on. L is 0 when nothing was under way, and at most what calls take. */
  lemma ProbeIsAdmittedInTime(cfg: Config, acts: seq<Action>, k: nat, secs: real, now: real)
    requires cfg.failThreshold >= 1 && secs >= 0.0 && k < |acts|
    requires OpenSince(cfg, acts, k) && FailuresEndWithin(acts, k, secs)
    requires now >= acts[k].at + secs + cfg.resetTimeoutSecs
    ensures Admits(cfg, Exec(cfg, acts).core, now)
    ensures AfterGate(cfg, Exec(cfg, acts).core, now).state == HalfOpen
  {
    OpenedWithin(cfg, acts, k, secs);
    assert acts[..|acts|] == acts;
  }

  /** The cooldown alone is not enough: for every threshold, a failure of a late call within the window renews
      it, and the gate that was to open a cooldown after the trip stays shut until a cooldown after that. */
  lemma LateFailureRenewsCooldown(cfg: Config, late: real, now: real)
    requires cfg.failThreshold >= 1 && 0.0 < late <= cfg.failWindowSecs
    requires cfg.resetTimeoutSecs <= now < late + cfg.resetTimeoutSecs
    ensures var tripped := FailuresBesideOne(cfg.failThreshold);
            var acts := tripped + [Finish(0, false, late)];
            && Feasible(cfg, acts)
            && Exec(cfg, tripped).core.state == Open && Admits(cfg, Exec(cfg, tripped).core, now)
            && Exec(cfg, acts).core.state == Open && !Admits(cfg, Exec(cfg, acts).core, now)
  {
    FailuresBesideOneRun(cfg, cfg.failThreshold);
    ExecSnoc(cfg, FailuresBesideOne(cfg.failThreshold), Finish(0, false, late));
  }

  // ---------------------------------------------------------------------------------------------
  // The object
  // ---------------------------------------------------------------------------------------------

  datatype CallResult = Refused | Succeeded | Failed

  class CircuitBreaker {
    const config: Config
    var state: BreakerState
    var failureCount: nat
    var firstFailureAt: Option<real>
    var openedAt: Option<real>
    var probeInFlight: bool
    /** Every step taken under the lock so far. */
    ghost var history: seq<Event>

    ghost function Current(): Core
      reads this
    {
      Core(state, failureCount, firstFailureAt, openedAt, probeInFlight)
    }

    /** The fields are those of a reachable state, so every theorem about Run applies to the object. */
    ghost predicate Valid()
      reads this
    {
      Current() == Run(config, FRESH, history)
    }

    constructor (config: Config)
      ensures Valid() && this.config == config && history == []
    {
      this.config := config;
      state, failureCount, firstFailureAt, openedAt, probeInFlight := Closed, 0, None, None, false;
      history := [];
    }

    method BeforeCall(now: real) returns (admitted: bool)
      requires Valid()
      modifies this
      ensures Valid() && history == old(history) + [Before(now)]
      ensures admitted == old(Admits(config, Current(), now))
    {
      RunSnoc(config, FRESH, history, Before(now));
      history := history + [Before(now)];
      if state == Open {
        if openedAt.Some? && now - openedAt.value >= config.resetTimeoutSecs {
          state := HalfOpen;
          probeInFlight := true;
          return true;
        }
        return false;
      }
      if state == HalfOpen {
        if probeInFlight {
          return false;
        }
        probeInFlight := true;
        return true;
      }
      return true;
    }

    method RecordFailure(now: real)
      requires Valid()
      modifies this
      ensures Valid() && history == old(history) + [Failure(now)]
    {
      RunSnoc(config, FRESH, history, Failure(now));
      history := history + [Failure(now)];
      if state == HalfOpen {
        probeInFlight := false;
        state := Open;
        openedAt := Some(now);
        return;
      }
      if firstFailureAt.None? || now - firstFailureAt.value > config.failWindowSecs {
        firstFailureAt := Some(now);
        failureCount := 1;
      } else {
        failureCount := failureCount + 1;
      }
      if failureCount >= config.failThreshold {
        state := Open;
        openedAt := Some(now);
      }
    }

    method RecordSuccess()
      requires Valid()
      modifies this
      ensures Valid() && history == old(history) + [Success]
    {
      RunSnoc(config, FRESH, history, Success);
      history := history + [Success];
      if state == HalfOpen {
        probeInFlight := false;
        state := Closed;
        failureCount := 0;
        firstFailureAt := None;
        openedAt := None;
        return;
      }
      failureCount := 0;
      firstFailureAt := None;
    }

    method ManualReset()
      requires Valid()
      modifies this
      ensures Valid() && history == old(history) + [Reset]
    {
      RunSnoc(config, FRESH, history, Reset);
      history := history + [Reset];
      state := Closed;
      failureCount := 0;
      firstFailureAt := None;
      openedAt := None;
      probeInFlight := false;
    }

    /** One supervised call that nothing interleaves with; succeeds tells whether the wrapped function
        returned normally. */
    method CallSync(startedAt: real, succeeds: bool, endedAt: real) returns (r: CallResult)
      requires Valid()
      modifies this
      ensures Valid()
      ensures r == Refused <==> !old(Admits(config, Current(), startedAt))
      ensures r == Refused ==> Current() == old(Current()) && history == old(history) + [Before(startedAt)]
      ensures r != Refused ==>
                && r == (if succeeds then Succeeded else Failed)
                && history == old(history) + [Before(startedAt), if succeeds then Success else Failure(endedAt)]
    {
      ghost var past := history;
      RunSnoc(config, FRESH, past, Before(startedAt));
      var admitted := BeforeCall(startedAt);
      if !admitted {
        return Refused;
      }
      if succeeds {
        RecordSuccess();
        return Succeeded;
      }
      RecordFailure(endedAt);
      return Failed;
    }
  }
}
