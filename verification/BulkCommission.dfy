/**
  The sequential bulk-commission worker of app.py: one pairing attempt at a time, duplicates of a
  physical device skipped, three failures in a row end the run, the pairing mutex held throughout.
  */
module BulkCommission {
  import opened Prelude
  import Text
  import PairingLock

  const SETTLE_SECS := 8.0
  const DEVICE_CEILING_SECS := 120.0
  const MAX_CONSECUTIVE_FAILURES := 3
  const HOLDER := "commission_all"

  datatype Device = Device(uniqueId: string, name: Option<string>, macAddress: Option<string>) {
    function Label(): string { name.GetOr(uniqueId) }
    function Mac(): string { Text.Lower(Text.Strip(macAddress.GetOr(""))) }
  }

  /** What one commissioning attempt would do if left alone: how long it takes and how it ends. */
  datatype Attempt = Commissions(secs: real, nodeId: Option<int>) | Raises(secs: real, detail: string)

  datatype Status = Ok(nodeId: Option<int>) | Error(detail: string) | Skipped

  datatype Entry = Entry(device: string, status: Status)

  /** A device row as the loop sees it: its label, its normalised MAC, and what its attempt would do. */
  datatype Job = Job(name: string, mac: string, attempt: Attempt)

  function Jobs(devices: seq<Device>, attempts: seq<Attempt>): (jobs: seq<Job>)
    requires |attempts| == |devices|
    ensures |jobs| == |devices|
    ensures forall i :: 0 <= i < |devices| ==> jobs[i] == Job(devices[i].Label(), devices[i].Mac(), attempts[i])
  {
    seq(|devices|, i requires 0 <= i < |devices| => Job(devices[i].Label(), devices[i].Mac(), attempts[i]))
  }

  /** The attempt as bounded by the per-device ceiling. */
  function Bounded(a: Attempt): Status {
    if a.secs > DEVICE_CEILING_SECS then Error("timed out after 120s")
    else match a
      case Commissions(_, nodeId) => Ok(nodeId)
      case Raises(_, detail) => Error(detail)
  }

  function BoundedSecs(a: Attempt): real {
    if a.secs > DEVICE_CEILING_SECS then DEVICE_CEILING_SECS else a.secs
  }

  function TtlSecs(devices: nat): int {
    devices * 128 + 300
  }

  // ---------------------------------------------------------------------------------------------
  // The ledger a run leaves behind, said without the loop
  // ---------------------------------------------------------------------------------------------

  /** Row i names the physical device of an earlier row that was commissioned. */
  ghost predicate Duplicate(jobs: seq<Job>, rs: seq<Entry>, i: nat)
    requires i <= |rs| <= |jobs| && i < |jobs|
  {
    jobs[i].mac != "" && exists j :: 0 <= j < i && rs[j].status.Ok? && jobs[j].mac == jobs[i].mac
  }

  /** The results cover the first rows in order: duplicates are skipped, all others attempted. */
  ghost predicate Covers(jobs: seq<Job>, rs: seq<Entry>) {
    && |rs| <= |jobs|
    && forall i :: 0 <= i < |rs| ==>
         && rs[i].device == jobs[i].name
         && rs[i].status == if Duplicate(jobs, rs, i) then Skipped else Bounded(jobs[i].attempt)
  }

  /** The MACs commissioned so far. */
  function CommissionedMacs(jobs: seq<Job>, rs: seq<Entry>): set<string>
    requires |rs| <= |jobs|
  {
    if rs == [] then {}
    else
      CommissionedMacs(jobs, Init(rs)) +
      if Last(rs).status.Ok? && jobs[|rs| - 1].mac != "" then {jobs[|rs| - 1].mac} else {}
  }

  /** Failures at the end of the results, not counting skipped rows, since the last success. */
  function TrailingFailures(rs: seq<Entry>): nat {
    if rs == [] then 0
    else match Last(rs).status
      case Ok(_) => 0
      case Error(_) => TrailingFailures(Init(rs)) + 1
      case Skipped => TrailingFailures(Init(rs))
  }

  ghost predicate NotWedgedBefore(rs: seq<Entry>, end: nat)
    requires end <= |rs|
  {
    forall k :: 0 <= k < end ==> TrailingFailures(rs[..k]) < MAX_CONSECUTIVE_FAILURES
  }

  /** A finished run: it stops at the first point where the last three attempts failed, or at the end. */
  ghost predicate Finished(jobs: seq<Job>, rs: seq<Entry>, aborted: bool) {
    && Covers(jobs, rs)
    && NotWedgedBefore(rs, |rs|)
    && (aborted <==> TrailingFailures(rs) >= MAX_CONSECUTIVE_FAILURES)
    && (!aborted ==> |rs| == |jobs|)
  }

  datatype Counts = Counts(ok: nat, failed: nat, skipped: nat)

  function Tally(rs: seq<Entry>): Counts {
    if rs == [] then Counts(0, 0, 0)
    else
      var t := Tally(Init(rs));
      match Last(rs).status
      case Ok(_) => t.(ok := t.ok + 1)
      case Error(_) => t.(failed := t.failed + 1)
      case Skipped => t.(skipped := t.skipped + 1)
  }

  /** Seconds the loop spends on the covered rows: the attempts, and a pause after each but the last device. */
  function ElapsedSecs(jobs: seq<Job>, rs: seq<Entry>): real
    requires |rs| <= |jobs|
  {
    if rs == [] then 0.0
    else
      var n := |rs| - 1;
      ElapsedSecs(jobs, Init(rs)) +
      if rs[n].status.Skipped? then 0.0
      else BoundedSecs(jobs[n].attempt) +
           if TrailingFailures(rs) < MAX_CONSECUTIVE_FAILURES && n < |jobs| - 1 then SETTLE_SECS else 0.0
  }

  // ---------------------------------------------------------------------------------------------
  // The worker
  // ---------------------------------------------------------------------------------------------

  class Progress {
    var running: bool
    var done: nat
    var ok: nat
    var failed: nat
    var skipped: nat
    var results: seq<Entry>
    var aborted: bool

    /** The state written just before the worker is spawned. */
    constructor ()
      ensures running && ok == 0 && failed == 0 && skipped == 0 && results == [] && !aborted && done == 0
    {
      running, done, ok, failed, skipped, results, aborted := true, 0, 0, 0, 0, [], false;
    }

    /** The counters and the flag agree with the results, which form the ledger of the rows so far. */
    ghost predicate Consistent(jobs: seq<Job>)
      reads this
    {
      && Counts(ok, failed, skipped) == Tally(results)
      && Covers(jobs, results)
      && NotWedgedBefore(results, |results|)
      && (aborted <==> TrailingFailures(results) >= MAX_CONSECUTIVE_FAILURES)
    }

    /** One run. attempts[i] is what commissioning devices[i] would do; others are told the detail meanwhile. */
    method Work(lock: PairingLock.LockTable, detail: string, devices: seq<Device>, attempts: seq<Attempt>, startedAt: real)
      returns (endedAt: real)
      requires |attempts| == |devices|
      requires results == [] && ok == 0 && failed == 0 && skipped == 0 && !aborted
      modifies this, lock
      ensures !running
      ensures old(!PairingLock.Takeable(lock.row, startedAt)) ==>
                aborted && results == [] && lock.row == old(lock.row) && endedAt == startedAt && done == old(done)
      ensures old(PairingLock.Takeable(lock.row, startedAt)) ==>
                && Finished(Jobs(devices, attempts), results, aborted)
                && Counts(ok, failed, skipped) == Tally(results) && done == |results|
                && endedAt == startedAt + ElapsedSecs(Jobs(devices, attempts), results)
                && lock.row == PairingLock.Released(
                     PairingLock.Acquired(old(lock.row), HOLDER, detail, TtlSecs(|devices|), startedAt), HOLDER, endedAt)
    {
      var got := lock.TryAcquire(HOLDER, detail, |devices| * 128 + 300, startedAt);
      if got.Busy? {
        running := false;
        aborted := true;
        return startedAt;
      }
      var clock := startedAt;
      var seenMacs: set<string> := {};
      var consecutiveFailures := 0;
      ghost var jobs := Jobs(devices, attempts);
      var n := 0;
      while n < |devices| && !aborted
        invariant n == |results| <= |devices|
        invariant Consistent(jobs)
        invariant seenMacs == CommissionedMacs(jobs, results)
        invariant consecutiveFailures == TrailingFailures(results)
        invariant clock == startedAt + ElapsedSecs(jobs, results)
        invariant lock.row == PairingLock.Acquired(old(lock.row), HOLDER, detail, TtlSecs(|devices|), startedAt)
      {
        done := n;
        var job := Job(devices[n].Label(), devices[n].Mac(), attempts[n]);
        seenMacs, consecutiveFailures, clock :=
          Visit(jobs, job, n == |devices| - 1, seenMacs, consecutiveFailures, clock);
        n := n + 1;
      }
      var released := lock.Release(HOLDER, clock);
      done := |results|;
      running := false;
      endedAt := clock;
    }

    /** The loop body: skip or attempt one row, then settle unless the run stops or the row is the last. */
    method Visit(ghost jobs: seq<Job>, job: Job, isLast: bool, seen: set<string>, failuresSoFar: nat, now: real)
      returns (seenMacs: set<string>, consecutiveFailures: nat, clock: real)
      requires |results| < |jobs| && job == jobs[|results|] && (isLast <==> |results| == |jobs| - 1)
      requires Consistent(jobs) && !aborted
      requires seen == CommissionedMacs(jobs, results)
      requires failuresSoFar == TrailingFailures(results)
      modifies this
      ensures results != [] && Init(results) == old(results) && running == old(running)
      ensures Consistent(jobs)
      ensures seenMacs == CommissionedMacs(jobs, results)
      ensures consecutiveFailures == TrailingFailures(results)
      ensures clock - now == ElapsedSecs(jobs, results) - old(ElapsedSecs(jobs, results))
    {
      seenMacs, consecutiveFailures, clock := seen, failuresSoFar, now;
      SeenExactlyWhenDuplicate(jobs, results);
      if job.mac != "" && job.mac in seenMacs {
        Record(jobs, Entry(job.name, Skipped));
        return;
      }
      var outcome := Bounded(job.attempt);
      Record(jobs, Entry(job.name, outcome));
      clock := clock + BoundedSecs(job.attempt);
      if outcome.Ok? {
        consecutiveFailures := 0;
        if job.mac != "" {
          seenMacs := seenMacs + {job.mac};
        }
      } else {
        consecutiveFailures := consecutiveFailures + 1;
      }
      if consecutiveFailures >= MAX_CONSECUTIVE_FAILURES {
        aborted := true;
      } else if !isLast {
        clock := clock + SETTLE_SECS;
      }
    }

    /** Append one result and count it. */
    method Record(ghost jobs: seq<Job>, e: Entry)
      requires |results| < |jobs| && Covers(jobs, results)
      requires Counts(ok, failed, skipped) == Tally(results)
      requires NotWedgedBefore(results, |results|) && TrailingFailures(results) < MAX_CONSECUTIVE_FAILURES
      requires e.device == jobs[|results|].name
      requires e.status == if Duplicate(jobs, results, |results|) then Skipped else Bounded(jobs[|results|].attempt)
      modifies this`results, this`ok, this`failed, this`skipped
      ensures results == old(results) + [e] && Init(results) == old(results)
      ensures Covers(jobs, results) && NotWedgedBefore(results, |results|)
      ensures Counts(ok, failed, skipped) == Tally(results)
      ensures LedgerStep(jobs, old(results), e)
    {
      ExtendLedger(jobs, results, e);
      StillNotWedgedBefore(results, e);
      EveryResultIsALedgerStep(jobs, results, e);
      results := results + [e];
      match e.status
      case Ok(_) => ok := ok + 1;
      case Error(_) => failed := failed + 1;
      case Skipped => skipped := skipped + 1;
    }
  }

  lemma {:induction false} MacIsCommissioned(jobs: seq<Job>, rs: seq<Entry>, mac: string)
    requires |rs| <= |jobs|
    ensures mac in CommissionedMacs(jobs, rs) <==>
              mac != "" && exists j :: 0 <= j < |rs| && rs[j].status.Ok? && jobs[j].mac == mac
  {
    if rs != [] {
      var n := |rs| - 1;
      MacIsCommissioned(jobs, Init(rs), mac);
      forall j | 0 <= j < n ensures Init(rs)[j] == rs[j] {}
      if mac in CommissionedMacs(jobs, Init(rs)) {
        var j :| 0 <= j < n && Init(rs)[j].status.Ok? && jobs[j].mac == mac;
        assert rs[j].status.Ok?;
      }
    }
  }

  lemma SeenExactlyWhenDuplicate(jobs: seq<Job>, rs: seq<Entry>)
    requires |rs| < |jobs|
    ensures Duplicate(jobs, rs, |rs|) <==> jobs[|rs|].mac in CommissionedMacs(jobs, rs)
    ensures "" !in CommissionedMacs(jobs, rs)
  {
    MacIsCommissioned(jobs, rs, jobs[|rs|].mac);
    MacIsCommissioned(jobs, rs, "");
  }

  /** What one more result does to every quantity read off the results. */
  ghost predicate LedgerStep(jobs: seq<Job>, before: seq<Entry>, e: Entry)
    requires |before| < |jobs|
  {
    var after, job := before + [e], jobs[|before|];
    match e.status
    case Skipped =>
      && Tally(after) == Tally(before).(skipped := Tally(before).skipped + 1)
      && TrailingFailures(after) == TrailingFailures(before)
      && CommissionedMacs(jobs, after) == CommissionedMacs(jobs, before)
      && ElapsedSecs(jobs, after) == ElapsedSecs(jobs, before)
    case Ok(_) =>
      && Tally(after) == Tally(before).(ok := Tally(before).ok + 1)
      && TrailingFailures(after) == 0
      && CommissionedMacs(jobs, after) == CommissionedMacs(jobs, before) + (if job.mac != "" then {job.mac} else {})
      && ElapsedSecs(jobs, after) == ElapsedSecs(jobs, before) + BoundedSecs(job.attempt) + Pause(jobs, before, 0)
    case Error(_) =>
      && Tally(after) == Tally(before).(failed := Tally(before).failed + 1)
      && TrailingFailures(after) == TrailingFailures(before) + 1
      && CommissionedMacs(jobs, after) == CommissionedMacs(jobs, before)
      && ElapsedSecs(jobs, after) ==
           ElapsedSecs(jobs, before) + BoundedSecs(job.attempt) + Pause(jobs, before, TrailingFailures(before) + 1)
  }

  function Pause(jobs: seq<Job>, before: seq<Entry>, failures: nat): real {
    if failures < MAX_CONSECUTIVE_FAILURES && |before| < |jobs| - 1 then SETTLE_SECS else 0.0
  }

  lemma EveryResultIsALedgerStep(jobs: seq<Job>, before: seq<Entry>, e: Entry)
    requires |before| < |jobs|
    ensures Init(before + [e]) == before
    ensures LedgerStep(jobs, before, e)
  {
  }

  lemma ExtendLedger(jobs: seq<Job>, before: seq<Entry>, e: Entry)
    requires |before| < |jobs|
    requires Covers(jobs, before)
    requires e.device == jobs[|before|].name
    requires e.status == if Duplicate(jobs, before, |before|) then Skipped else Bounded(jobs[|before|].attempt)
    ensures Covers(jobs, before + [e])
  {
    var after := before + [e];
    forall i | 0 <= i < |after|
      ensures after[i].device == jobs[i].name
      ensures after[i].status == if Duplicate(jobs, after, i) then Skipped else Bounded(jobs[i].attempt)
    {
      DuplicateIgnoresLaterRows(jobs, before, e, i);
    }
  }

  lemma StillNotWedgedBefore(before: seq<Entry>, e: Entry)
    requires NotWedgedBefore(before, |before|) && TrailingFailures(before) < MAX_CONSECUTIVE_FAILURES
    ensures NotWedgedBefore(before + [e], |before| + 1)
  {
    forall k | 0 <= k < |before| + 1 ensures TrailingFailures((before + [e])[..k]) < MAX_CONSECUTIVE_FAILURES {
      assert (before + [e])[..k] == before[..k];
      assert before[..|before|] == before;
    }
  }

  lemma DuplicateIgnoresLaterRows(jobs: seq<Job>, before: seq<Entry>, e: Entry, i: nat)
    requires i <= |before| < |jobs|
    ensures Duplicate(jobs, before + [e], i) <==> Duplicate(jobs, before, i)
  {
    forall j | 0 <= j < i ensures (before + [e])[j] == before[j] {}
    if j :| 0 <= j < i && before[j].status.Ok? && jobs[j].mac == jobs[i].mac {
      assert (before + [e])[j].status.Ok?;
    }
  }

  // ---------------------------------------------------------------------------------------------
  // What a ledger means
  // ---------------------------------------------------------------------------------------------

  lemma {:induction false} TallyConserves(rs: seq<Entry>)
    ensures Tally(rs).ok + Tally(rs).failed + Tally(rs).skipped == |rs|
  {
    if rs != [] {
      TallyConserves(Init(rs));
    }
  }

  /** The rules leave a run no freedom: same rows, same attempts, same ledger. */
  lemma LedgerIsDetermined(jobs: seq<Job>, rs: seq<Entry>, aborted: bool, rs': seq<Entry>, aborted': bool)
    requires Finished(jobs, rs, aborted) && Finished(jobs, rs', aborted')
    ensures rs == rs' && aborted == aborted'
    decreases |rs|
  {
    if |rs| <= |rs'| {
      SameRows(jobs, rs, rs', |rs|);
      assert rs == rs'[..|rs|];
      assert rs' == rs'[..|rs'|];
    } else {
      LedgerIsDetermined(jobs, rs', aborted', rs, aborted);
    }
  }

  lemma {:induction false} SameRows(jobs: seq<Job>, rs: seq<Entry>, rs': seq<Entry>, n: nat)
    requires Covers(jobs, rs) && Covers(jobs, rs')
    requires n <= |rs| && n <= |rs'|
    ensures forall i :: 0 <= i < n ==> rs[i] == rs'[i]
  {
    if n > 0 {
      SameRows(jobs, rs, rs', n - 1);
      assert Duplicate(jobs, rs, n - 1) <==> Duplicate(jobs, rs', n - 1);
    }
  }

  /** One commission per physical device: a non-empty MAC is commissioned at most once in a run. */
  lemma CommissionedOncePerMac(jobs: seq<Job>, rs: seq<Entry>, i: nat, j: nat)
    requires Covers(jobs, rs) && i < j < |rs|
    requires rs[i].status.Ok? && rs[j].status.Ok?
    ensures jobs[i].mac != jobs[j].mac || jobs[i].mac == ""
  {
    if jobs[i].mac == jobs[j].mac && jobs[i].mac != "" {
      assert Duplicate(jobs, rs, j);
    }
  }

  /** The rows of one physical device fail, then succeed once, then are skipped: before a row that is not
      skipped only failures, after a row that did not fail only skips, and a skipped row has exactly one
      success before it. */
  lemma FailuresThenOneSuccessThenSkips(jobs: seq<Job>, rs: seq<Entry>, i: nat, j: nat)
    requires Covers(jobs, rs) && i < j < |rs|
    requires jobs[i].mac == jobs[j].mac != ""
    ensures rs[j].status.Skipped? <==> !rs[i].status.Error? || exists k :: i < k < j && NamesSuccess(jobs, rs, k, j)
    ensures !rs[j].status.Skipped? ==> rs[i].status.Error?
    ensures rs[j].status.Skipped? ==>
              exists k :: 0 <= k < j && NamesSuccess(jobs, rs, k, j)
                          && forall m :: 0 <= m < j && NamesSuccess(jobs, rs, m, j) ==> m == k
  {
    assert rs[j].status.Skipped? <==> Duplicate(jobs, rs, j);
    assert rs[i].status.Skipped? <==> Duplicate(jobs, rs, i);
    if rs[i].status.Skipped? {
      var p :| 0 <= p < i && rs[p].status.Ok? && jobs[p].mac == jobs[i].mac;
      assert rs[p].status.Ok? && jobs[p].mac == jobs[j].mac;
    }
    if rs[i].status.Error? && (forall k :: i < k < j ==> !NamesSuccess(jobs, rs, k, j)) {
      forall k | 0 <= k < i ensures !NamesSuccess(jobs, rs, k, j) {
        assert NamesSuccess(jobs, rs, k, j) ==> Duplicate(jobs, rs, i);
      }
    }
    if rs[j].status.Skipped? {
      var k :| 0 <= k < j && rs[k].status.Ok? && jobs[k].mac == jobs[j].mac;
      assert NamesSuccess(jobs, rs, k, j);
      forall m | 0 <= m < j && NamesSuccess(jobs, rs, m, j) ensures m == k {
        OneSuccess(jobs, rs, k, m, j);
      }
    }
  }

  lemma OneSuccess(jobs: seq<Job>, rs: seq<Entry>, k: nat, m: nat, j: nat)
    requires Covers(jobs, rs) && k < |rs| && m < |rs| && j < |jobs| && jobs[j].mac != ""
    requires NamesSuccess(jobs, rs, k, j) && NamesSuccess(jobs, rs, m, j)
    ensures k == m
  {
    assert Duplicate(jobs, rs, k) <==> rs[k].status.Skipped?;
    assert Duplicate(jobs, rs, m) <==> rs[m].status.Skipped?;
  }

  /** Row k commissioned the physical device that row j names. */
  ghost predicate NamesSuccess(jobs: seq<Job>, rs: seq<Entry>, k: nat, j: nat)
    requires k < |rs| <= |jobs| && j < |jobs|
  {
    rs[k].status.Ok? && jobs[k].mac == jobs[j].mac
  }

  ghost predicate LastThreeAttemptsFailed(rs: seq<Entry>, i: nat, j: nat, k: nat)
    requires i < j < k < |rs|
  {
    && rs[i].status.Error? && rs[j].status.Error? && rs[k].status.Error?
    && forall m :: i < m < |rs| && m != j && m != k ==> rs[m].status.Skipped?
  }

  /** The last n attempted rows failed: positions of the failures, newest last. */
  lemma {:induction false} TrailingPositions(rs: seq<Entry>, n: nat) returns (ps: seq<nat>)
    requires TrailingFailures(rs) >= n
    ensures |ps| == n
    ensures forall x :: 0 <= x < n ==> ps[x] < |rs| && rs[ps[x]].status.Error?
    ensures forall x, y :: 0 <= x < y < n ==> ps[x] < ps[y]
    ensures n > 0 ==> forall m :: ps[0] < m < |rs| && m !in ps ==> rs[m].status.Skipped?
  {
    if n == 0 {
      ps := [];
    } else {
      forall m | 0 <= m < |rs| - 1 ensures Init(rs)[m] == rs[m] {}
      if Last(rs).status.Error? {
        var qs := TrailingPositions(Init(rs), n - 1);
        ps := qs + [|rs| - 1];
        assert |rs| - 1 == ps[n - 1];
      } else {
        ps := TrailingPositions(Init(rs), n);
      }
    }
  }

  lemma {:induction false} TrailingAtLeast(rs: seq<Entry>, i: nat, j: nat, k: nat)
    requires i < j < k < |rs| && LastThreeAttemptsFailed(rs, i, j, k)
    ensures TrailingFailures(rs) >= 3
    decreases |rs|
  {
    if k < |rs| - 1 {
      forall m | 0 <= m < |rs| - 1 ensures Init(rs)[m] == rs[m] {}
      TrailingAtLeast(Init(rs), i, j, k);
    } else {
      TrailingOfSkips(rs[..k], j);
      TrailingOfSkips(rs[..j], i);
      assert rs[..k] == Init(rs) && rs[..k][..j] == rs[..j] && rs[..j][..i] == rs[..i];
    }
  }

  /** Skipped rows after a failed one do not hide it. */
  lemma {:induction false} TrailingOfSkips(rs: seq<Entry>, i: nat)
    requires i < |rs| && rs[i].status.Error?
    requires forall m :: i < m < |rs| ==> rs[m].status.Skipped?
    ensures TrailingFailures(rs) == TrailingFailures(rs[..i]) + 1
  {
    if i < |rs| - 1 {
      TrailingOfSkips(Init(rs), i);
      assert Init(rs)[..i] == rs[..i];
    } else {
      assert Init(rs) == rs[..i];
    }
  }

  /** The run aborts exactly at the first row where the last three attempted devices failed. */
  lemma AbortsExactlyAtThirdFailure(jobs: seq<Job>, rs: seq<Entry>, aborted: bool)
    requires Finished(jobs, rs, aborted)
    ensures aborted <==> exists i, j, k :: 0 <= i < j < k < |rs| && LastThreeAttemptsFailed(rs, i, j, k)
    ensures forall n, i, j, k :: 0 <= i < j < k < n < |rs| ==> !LastThreeAttemptsFailed(rs[..n], i, j, k)
  {
    if aborted {
      var ps := TrailingPositions(rs, 3);
      assert LastThreeAttemptsFailed(rs, ps[0], ps[1], ps[2]);
    }
    if i, j, k :| 0 <= i < j < k < |rs| && LastThreeAttemptsFailed(rs, i, j, k) {
      TrailingAtLeast(rs, i, j, k);
    }
    forall n, i, j, k | 0 <= i < j < k < n < |rs|
      ensures !LastThreeAttemptsFailed(rs[..n], i, j, k)
    {
      if LastThreeAttemptsFailed(rs[..n], i, j, k) {
        TrailingAtLeast(rs[..n], i, j, k);
        assert false;
      }
    }
  }

  /** An earlier row of the same MAC was commissioned. */
  ghost predicate CommissionedBefore(jobs: seq<Job>, rs: seq<Entry>, i: nat)
    requires i < |rs| <= |jobs|
  {
    jobs[i].mac != "" && exists j :: 0 <= j < i && rs[j].status.Ok? && jobs[j].mac == jobs[i].mac
  }

  /** Every row of a ledger against its attempt: left out exactly when the device was commissioned before; otherwise
      ok with the node id exactly when the attempt commissions within 120 s, and an error with the attempt's own
      detail, or the ceiling's, exactly when it raises or takes longer. */
  lemma RowFollowsItsAttempt(jobs: seq<Job>, rs: seq<Entry>, i: nat)
    requires Covers(jobs, rs) && i < |rs|
    ensures rs[i].device == jobs[i].name
    ensures rs[i].status.Skipped? <==> CommissionedBefore(jobs, rs, i)
    ensures rs[i].status.Ok? <==>
              !CommissionedBefore(jobs, rs, i) && jobs[i].attempt.Commissions? && jobs[i].attempt.secs <= 120.0
    ensures rs[i].status.Ok? ==> rs[i].status.nodeId == jobs[i].attempt.nodeId
    ensures rs[i].status.Error? <==>
              !CommissionedBefore(jobs, rs, i) && (jobs[i].attempt.Raises? || jobs[i].attempt.secs > 120.0)
    ensures rs[i].status.Error? && jobs[i].attempt.secs > 120.0 ==> rs[i].status.detail == "timed out after 120s"
    ensures rs[i].status.Error? && jobs[i].attempt.secs <= 120.0 ==> rs[i].status.detail == jobs[i].attempt.detail
  {
    assert Duplicate(jobs, rs, i) <==> CommissionedBefore(jobs, rs, i);
  }

  /** The MAC columns hold the same address: not blank, and equal but for blanks around it and the case of letters. */
  ghost predicate SameMac(d: Device, e: Device) {
    && d.macAddress.Some? && e.macAddress.Some?
    && Text.SameKey(d.macAddress.value, e.macAddress.value)
    && exists k :: 0 <= k < |d.macAddress.value| && d.macAddress.value[k] !in Text.BLANKS
  }

  lemma MacsAgreeExactlyWhen(d: Device, e: Device)
    ensures d.Mac() == e.Mac() != "" <==> SameMac(d, e)
  {
    Text.KeysAgreeExactlyWhen(d.macAddress.GetOr(""), e.macAddress.GetOr(""));
    Text.KeysAgreeExactlyWhen(e.macAddress.GetOr(""), d.macAddress.GetOr(""));
    if e.macAddress.None? {
      assert e.Mac() == "";
    }
    if d.macAddress.None? {
      assert d.Mac() == "";
    }
  }

  /** Over the rows of the table: each result carries the device's name, or its id where it has none, and is a skip
      exactly when an earlier row with the same MAC was commissioned. */
  lemma RunSkipsExactlyTheSameMac(devices: seq<Device>, attempts: seq<Attempt>, rs: seq<Entry>, i: nat)
    requires |attempts| == |devices| && Covers(Jobs(devices, attempts), rs) && i < |rs|
    ensures rs[i].device == if devices[i].name.Some? then devices[i].name.value else devices[i].uniqueId
    ensures rs[i].status.Skipped? <==> exists j :: 0 <= j < i && rs[j].status.Ok? && SameMac(devices[j], devices[i])
  {
    var jobs := Jobs(devices, attempts);
    RowFollowsItsAttempt(jobs, rs, i);
    forall j | 0 <= j < i
      ensures SameMac(devices[j], devices[i]) <==> jobs[i].mac != "" && jobs[j].mac == jobs[i].mac
    {
      MacsAgreeExactlyWhen(devices[j], devices[i]);
    }
  }

  ghost function Having(rs: seq<Entry>, p: Status -> bool): set<int> {
    set i | 0 <= i < |rs| && p(rs[i].status)
  }

  lemma HavingSnoc(rs: seq<Entry>, p: Status -> bool)
    requires rs != []
    ensures |Having(rs, p)| == |Having(Init(rs), p)| + if p(Last(rs).status) then 1 else 0
  {
    var n := |rs| - 1;
    assert Having(rs, p) == Having(Init(rs), p) + if p(Last(rs).status) then {n} else {};
    assert n !in Having(Init(rs), p);
  }

  /** Each counter is the number of rows of its kind. */
  lemma {:induction false} TallyCounts(rs: seq<Entry>)
    ensures Tally(rs).ok == |Having(rs, (s: Status) => s.Ok?)|
    ensures Tally(rs).failed == |Having(rs, (s: Status) => s.Error?)|
    ensures Tally(rs).skipped == |Having(rs, (s: Status) => s.Skipped?)|
  {
    if rs == [] {
      assert Having(rs, (s: Status) => s.Ok?) == {} == Having(rs, (s: Status) => s.Error?);
      assert Having(rs, (s: Status) => s.Skipped?) == {};
    } else {
      TallyCounts(Init(rs));
      HavingSnoc(rs, (s: Status) => s.Ok?);
      HavingSnoc(rs, (s: Status) => s.Error?);
      HavingSnoc(rs, (s: Status) => s.Skipped?);
    }
  }

  // ---------------------------------------------------------------------------------------------
  // How long a run takes
  // ---------------------------------------------------------------------------------------------

  /** What the attempts of the rows not skipped take together, each cut off at 120 s. */
  function AttemptSecs(jobs: seq<Job>, rs: seq<Entry>): real
    requires |rs| <= |jobs|
  {
    if rs == [] then 0.0
    else
      AttemptSecs(jobs, Init(rs)) +
      if Last(rs).status.Skipped? then 0.0
      else if jobs[|rs| - 1].attempt.secs <= 120.0 then jobs[|rs| - 1].attempt.secs else 120.0
  }

  function Attempted(rs: seq<Entry>): nat {
    if rs == [] then 0 else Attempted(Init(rs)) + if Last(rs).status.Skipped? then 0 else 1
  }

  lemma {:induction false} EveryAttemptIsFollowedByAPause(jobs: seq<Job>, rs: seq<Entry>)
    requires |rs| < |jobs| && NotWedgedBefore(rs, |rs|) && TrailingFailures(rs) < MAX_CONSECUTIVE_FAILURES
    ensures ElapsedSecs(jobs, rs) == AttemptSecs(jobs, rs) + 8.0 * Attempted(rs) as real
  {
    if rs != [] {
      assert rs[..|rs| - 1] == Init(rs);
      assert forall k :: 0 <= k < |rs| - 1 ==> Init(rs)[..k] == rs[..k];
      EveryAttemptIsFollowedByAPause(jobs, Init(rs));
    }
  }

  /** A finished run takes what its attempts take and 8 seconds between them: a pause after every attempt but one
      that ends the run. */
  lemma RunTakesItsAttemptsAndPauses(jobs: seq<Job>, rs: seq<Entry>, aborted: bool)
    requires Finished(jobs, rs, aborted)
    ensures var endsOnAttempt := rs != [] && !Last(rs).status.Skipped?;
            ElapsedSecs(jobs, rs) ==
            AttemptSecs(jobs, rs) + 8.0 * (Attempted(rs) - if endsOnAttempt then 1 else 0) as real
  {
    if rs != [] {
      assert rs[..|rs| - 1] == Init(rs);
      assert forall k :: 0 <= k < |rs| - 1 ==> Init(rs)[..k] == rs[..k];
      EveryAttemptIsFollowedByAPause(jobs, Init(rs));
    }
  }

  // ---------------------------------------------------------------------------------------------
  // The lease outlives the run
  // ---------------------------------------------------------------------------------------------

  /** Every covered row costs at most its ceiling plus one pause. */
  lemma {:induction false} ElapsedIsBounded(jobs: seq<Job>, rs: seq<Entry>)
    requires |rs| <= |jobs|
    ensures ElapsedSecs(jobs, rs) <= 128.0 * |rs| as real
  {
    if rs != [] {
      ElapsedIsBounded(jobs, Init(rs));
    }
  }

  /** The worker acquired the lock for its device list, then ran its loop while other clients did
      whatever they do. As long as everything besides the loop took less than 300 seconds, the row is
      the worker's at every moment until its own release: nobody else can acquire, no release of
      another client takes effect, and the worker's release frees the row. */
  lemma BulkRunKeepsLock(names: map<int, string>, past: seq<PairingLock.Move>, free: PairingLock.World, worker: int,
                         detail: string, jobs: seq<Job>, rs: seq<Entry>, overheadSecs: real,
                         others: seq<PairingLock.Move>, v: PairingLock.World)
    requires PairingLock.DistinctNames(names) && worker in names && names[worker] == HOLDER
    requires PairingLock.Exec(names, PairingLock.START, past) == Some(free)
    requires worker !in free.inside && PairingLock.Takeable(free.row, free.now)
    requires |rs| <= |jobs| && overheadSecs < 300.0
    requires forall i :: 0 <= i < |others| ==>
               others[i] != PairingLock.Release(worker) && others[i] != PairingLock.Crash(worker)
    requires var w := PairingLock.Apply(names, free, PairingLock.Acquire(worker, detail, TtlSecs(|jobs|)));
             && PairingLock.Exec(names, w, others) == Some(v)
             && v.now - w.now <= ElapsedSecs(jobs, rs) + overheadSecs
    ensures var w := PairingLock.Apply(names, free, PairingLock.Acquire(worker, detail, TtlSecs(|jobs|)));
            && v.row == w.row && v.row.isHeld && v.row.holder == Some(HOLDER)
            && !PairingLock.Takeable(v.row, v.now)
            && PairingLock.Live(v, worker)
            && PairingLock.Releasable(v.row, HOLDER)
    ensures forall c :: PairingLock.Live(v, c) ==> c == worker
  {
    var w := PairingLock.Apply(names, free, PairingLock.Acquire(worker, detail, TtlSecs(|jobs|)));
    PairingLock.ReachableIsFaithful(names, past);
    PairingLock.FaithfulStep(names, free, PairingLock.Acquire(worker, detail, TtlSecs(|jobs|)));
    ElapsedIsBounded(jobs, rs);
    assert (128 * |jobs|) as real == 128.0 * |jobs| as real;
    assert 128.0 * |rs| as real <= 128.0 * |jobs| as real;
    assert v.now < w.row.expiresAt.value;
    PairingLock.LeaseStands(names, w, others);
  }

  /** A worker that dies leaves the row to others from exactly 128 seconds a device and 300 more after its start. */
  lemma DeadRunBlocksForItsLease(row: PairingLock.Row, detail: string, devices: nat, startedAt: real, now: real)
    ensures PairingLock.Takeable(PairingLock.Acquired(row, HOLDER, detail, TtlSecs(devices), startedAt), now) <==>
            now >= startedAt + 128.0 * devices as real + 300.0
  {
    assert (128 * devices) as real == 128.0 * devices as real;
  }
}
