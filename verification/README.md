# Proofs about the smart-home service's protocols

Dafny models of the parts of the service that keep state over time: its circuit breaker, the mutex for Matter
pairing and the bulk run that holds it, the Matter watchdog, the instance manager and its subscription index,
the removal of Matter fabrics, the hub classifier, the two event broadcasters, the device commander, the operator
log, the MAC parser of the Matter discovery and the TV power debouncer. HTTP, SQL, WebSocket, ADB and subprocess
calls are oracles: a parameter says how each answers. Clock samples are parameters too.

`dafny verify dfyconfig.toml` checks everything. There is one file per component:

| file | component | what is proved |
|---|---|---|
| `CircuitBreaker.dfy` | fail-fast breaker | reachable states, trip soundness, a tight detection bound, probe spacing, when a probe is really alone |
| `PairingLock.dfy` | one-row lease | exclusion over every interleaving, exactly for distinct holder names |
| `BulkCommission.dfy` | bulk worker | the ledger of a run, its abort point, the lease outliving the run |
| `MatterWatchdog.dfy` | self-healing sweep | pacing, give-up, convergence with a measure and a time bound |
| `Subscriptions.dfy`, `Instances.dfy` | instance manager | the index agrees with the rows over every history, timed pauses, the reviver |
| `InstanceHistories.dfy` | instance manager, from its requests | which rows exist, what they hold, who runs and whom an event reaches |
| `Fabrics.dfy` | fabric clean-up | what survives a decommission under any losses and whatever was read |
| `HubClassifier.dfy` | hub classifier | one winner per label, whatever the order of the hubs, and its routing |
| `Broadcasts.dfy` | dashboard and test-run broadcasters | each client hears a contiguous stretch of the history |
| `DeviceCommander.dfy` | send and verify loops | where an execution ends, and a tight bound on floods |
| `OpLog.dfy` | operator log | incremental polling over a circular buffer |
| `Eui64.dfy` | MAC from link-local text | round trip over RFC 5952 text and RFC 4291 identifiers, and its converse |
| `TvPower.dfy` | TV power state | closed form of the debouncer, bound on announcements |
| `Prelude.dfy`, `Text.dfy` | shared | options, ends and positions of sequences, string normalisation |

Each component is a class or method in the source's own form, proved equal to a step function over values; the
theorems are lemmas about runs of those steps.

## Assumptions

- Circuit breaker: `now` is read outside the lock. Where a theorem needs it (`ProbesAreSpaced` and the runs of
  concurrent calls) clock samples are assumed not to go backwards in the order in which the lock is taken. Every
  admitted call is recorded once.
- Hub names are unique (the `hub_config` table says so), fabric indices are unique on a device, node ids are unique
  in one server answer where the watchdog's convergence is concerned.
- A device accepts RemoveFabric only while the fabric of our session is in its table (section 11.18 of the Matter
  Core Specification 1.3). What a decommission leaves is stated for a reading of that table that is up to date and
  unfiltered; that foreign entries stay, for any reading.
- Device commander: the clock is read under the breaker's lock, so its samples do not go backwards in the order of
  gates and records; the number of executions at a time is a parameter, eight in the pool.
- Device ids are distinct on a hub where mirrors are told apart by id.
- Instance manager: reads succeed; writes may fail where the operation's `Io`, or the reconciler's `writes`, says so.
  An app that resumes itself counts as a resume.

## Where the code does less than it says

- "N consecutive failures within the window" trip the breaker: the window is anchored at its first failure, so they
  do so exactly under the condition of `CircuitBreakers.ThresholdFailuresTripExactlyWhen`; twice the threshold less
  two always do.
- "Exactly one call allowed through": a late result of an older call is taken for the probe's, for every threshold
  on some run (`CircuitBreakers.LateCallIsTakenForTheProbe`). It is true of a run exactly when nothing is unfinished
  at the first probe after each trip (`CircuitBreakers.SoleProbeExactlyWhenQuiet`), or, said of the calls, when those
  running while CLOSED are recorded by then (`CircuitBreakers.SoleProbeExactlyWhenClosedEraEnds`).
- A guarded release never frees a successor's lease: it compares names only, so this holds over every run exactly
  when no two clients share a name (`PairingLock.ReleaseIsGuardedExactlyForDistinctNames`, with the run of
  `PairingLock.SharedNameFreesSuccessor`), and so does exclusion (`PairingLock.ExclusionExactlyForDistinctNames`).
  Under shared names both hold of runs in which nobody overstays (`PairingLock.PromptReleaseFreesOwn`,
  `PairingLock.PromptClientsExclude`).
- OPEN for `reset_timeout_secs`, then HALF_OPEN: a failure of a late call renews the cooldown
  (`CircuitBreakers.LateFailureRenewsCooldown`), so the gate is sure to admit only a cooldown after the last of them
  (`CircuitBreakers.ProbeIsAdmittedInTime`).
- "Ours last" in the orphan purge: when the current index cannot be read, everything of ours is removed exactly when
  our own entry is the last of ours (`Fabrics.UnreadIndexClearsExactlyWhenSessionIsLast`), which it need not be
  (`Fabrics.UnreadIndexLeavesAnOrphan`).
- Keeping the current fabric "keeps the device controllable": exactly when the index read as current is our session's
  (`Fabrics.KeepCurrentKeepsRightsExactlyWhenRead`). With none read, or a stale one, our live fabric counts as an
  orphan; a self-clean then loses the device just commissioned (`Fabrics.UnreadIndexLosesTheNewFabric`).
- Only fabrics of ours are removed: of a stale reading this is true exactly when no index it lists for removal is
  another's by now (`Fabrics.ForeignStayExactlyWhenNotListed`, `Fabrics.StaleReadingRemovesAnothersFabric`).
- A status goes from UPDATING to an end: it stays UPDATING exactly when a fire-and-forget command, or one whose
  command has no expected state, is accepted by no send (`DeviceCommands.DeviceCommander.Execute`,
  `DeviceCommands.RefusedCommandNeverEnds`).
- "One half-open attempt" after a backoff: as many as there are idle workers get through together
  (`DeviceCommands.OpenGateAdmitsAll`, `DeviceCommands.WholePoolAtOnce`); the bound for any number of workers is
  `DeviceCommands.FloodBound`.
- Losers of a label stay failover candidates: as mirrors of its route exactly under the condition of
  `HubClassifier.NativeIsMirrorExactlyWhen`.
- The MAC of a link-local address is found except when the first interface field is zero, which canonical text folds
  into the double colon (`Eui64.RoundTripsExactlyWhenFirstFieldIsNonzero`).
- A negative `limit` of the log poll drops records at the front and 0 means no limit
  (`OpLog.PollIsCompleteExactlyWithinAllowance`).

## Model

| member | source | states |
|---|---|---|
| CircuitBreakers.CircuitBreaker.BeforeCall | services/circuit_breaker.py:250-289 | the gate admits exactly as the machine does and takes one step of it |
| CircuitBreakers.CircuitBreaker.RecordFailure | services/circuit_breaker.py:291-332 | a recorded failure is one step of the machine; the object stays a reachable state |
| CircuitBreakers.CircuitBreaker.RecordSuccess | services/circuit_breaker.py:334-355 | a recorded success is one step of the machine |
| CircuitBreakers.CircuitBreaker.ManualReset | services/circuit_breaker.py:229-245 | an operator reset is one step of the machine |
| CircuitBreakers.CircuitBreaker.CallSync | services/circuit_breaker.py:171-188 | a call that nothing interleaves with: refused, it changes nothing; otherwise it is gated, run, and recorded once with its outcome |
| CircuitBreakers.ReachableIsConsistent | services/circuit_breaker.py:250-355 | CLOSED has fewer failures than the threshold, none exactly without an anchor, and HALF_OPEN holds exactly while a probe is flagged |
| CircuitBreakers.CountIsTheLatestWindow | services/circuit_breaker.py:291-355 | in every reachable state the count and the anchor are those of the latest window over the failures recorded outside HALF_OPEN since the last success or reset; while CLOSED these are the whole streak |
| CircuitBreakers.TripSoundness | services/circuit_breaker.py:313-332 | a trip needs the last N outcomes to be failures since the last success or reset, all within the window of the first |
| CircuitBreakers.ClosesExactlyOnProbeSuccessOrReset | services/circuit_breaker.py:229-355 | a breaker that is not CLOSED closes exactly on a success in HALF_OPEN or a reset, and either clears everything |
| CircuitBreakers.DetectionBound | services/circuit_breaker.py:291-332 | from any reachable CLOSED state 2N - 2 failures within one window's length leave the breaker OPEN |
| CircuitBreakers.DetectionBoundIsTight | services/circuit_breaker.py:314-321 | for every threshold and window some 2N - 3 such failures leave it CLOSED |
| CircuitBreakers.ThresholdFailuresTripExactlyWhen | services/circuit_breaker.py:314-321 | when N failures within the window, the documented rule, do trip: exactly under a condition on the older window |
| CircuitBreakers.ProbesAreSpaced | services/circuit_breaker.py:250-289 | any two OPEN to HALF_OPEN steps are at least the cooldown apart, whatever comes between |
| CircuitBreakers.SoleProbeExactlyWhenQuiet | services/circuit_breaker.py:250-355 | one admitted call at a time in HALF_OPEN, deciding alone, exactly for the runs with nothing unfinished at each first probe after a trip from CLOSED; a failed probe leaves nothing for the next one |
| CircuitBreakers.SoleProbeExactlyWhenClosedEraEnds | services/circuit_breaker.py:250-355 | the same, exactly when every call that ran while CLOSED is recorded by the time the cooldown is over and a probe goes through, however long probes take |
| CircuitBreakers.LateCallIsTakenForTheProbe | services/circuit_breaker.py:334-347 | for every threshold a run with two calls unfinished in HALF_OPEN, where the older one's success closes the breaker |
| CircuitBreakers.PunctualCallsGiveSoleProbe | services/circuit_breaker.py:250-355 | calls running while CLOSED that end within less than the cooldown make the probe always alone, whatever the probes take |
| CircuitBreakers.GateOpensExactlyAfterCooldown | services/circuit_breaker.py:250-332 | over every history the gate of an OPEN breaker admits exactly from a cooldown after the last failed probe or threshold-reaching failure; CLOSED admits always, HALF_OPEN never |
| CircuitBreakers.OpeningShutsForOneCooldown | services/circuit_breaker.py:299-332 | a failed probe always reopens, and it, like a trip, shuts the gate for exactly one cooldown from its own time |
| CircuitBreakers.ProbeIsAdmittedInTime | services/circuit_breaker.py:250-332 | with no failure recorded later than L after the trip or failed probe, the gate of a breaker still OPEN admits from then + L + cooldown on |
| CircuitBreakers.LateFailureRenewsCooldown | services/circuit_breaker.py:313-332 | for every threshold a late failure within the window keeps the gate shut past trip + cooldown |
| PairingLock.LockTable.TryAcquire | services/matter_pairing_lock.py:68-112 | takes the row exactly when it is free or expired, records the holder taken over from, and otherwise reports the holder and changes nothing |
| PairingLock.LockTable.Release | services/matter_pairing_lock.py:115-128 | frees the row exactly when it is held under that name |
| PairingLock.ReleaseTakesEffectOnce | services/matter_pairing_lock.py:115-128 | a release under another name, or told again, leaves the row as it was |
| PairingLock.RowTellsTheLatestAcquisition | services/matter_pairing_lock.py:68-128 | over any run, with any names, the row, and so what a busy acquirer is told, holds name, detail, times and predecessor of the latest acquisition, and is held exactly until released |
| PairingLock.ReachableIsFaithful | services/matter_pairing_lock.py:68-128 | with distinct names the row always tells who acquired last, and a client with an unexpired lease is that one |
| PairingLock.ExclusionExactlyForDistinctNames | services/matter_pairing_lock.py:115-128 | at most one client inside with an unexpired lease, over every interleaving with crashes and delays, exactly for distinct names |
| PairingLock.SharedNameBreaksExclusion | services/matter_pairing_lock.py:124 | two clients of one name: a run that puts both inside |
| PairingLock.PromptClientsExclude | services/matter_pairing_lock.py:159-194 | under any names, clients that leave before their lease expires exclude each other |
| PairingLock.ReleaseFreesOwnLeaseOnly | services/matter_pairing_lock.py:115-128 | a release frees the row exactly when it is held through the client's own acquisition |
| PairingLock.ReleaseIsGuardedExactlyForDistinctNames | services/matter_pairing_lock.py:115-128 | over every interleaving no release touches a row held through another's acquisition, exactly for distinct names |
| PairingLock.SharedNameFreesSuccessor | services/matter_pairing_lock.py:115-128 | two clients of one name: a run after which the first one's release frees the second one's lease |
| PairingLock.PromptReleaseFreesOwn | services/matter_pairing_lock.py:159-194 | under any names, when all leave before their leases expire, each release is of the client's own lease |
| PairingLock.LeaseStands | services/matter_pairing_lock.py:68-112 | an unexpired lease is neither taken over nor released by others |
| PairingLock.CrashedHolderBlocksUntilExpiry | services/matter_pairing_lock.py:68-112 | a dead holder's row stands until its expiry; from then on, after any moves, it has been taken over by name or any client outside can take it by name |
| BulkCommission.Progress.Work | app.py:3504-3626 | a run leaves exactly the finished ledger of its rows, counters that agree with it, a freed lock, and refuses to start on a busy lock |
| BulkCommission.Progress.Visit | app.py:3553-3607 | one row is skipped, or attempted and counted, with its MAC, the failure count and the clock carried on |
| BulkCommission.LedgerIsDetermined | app.py:3553-3607 | same rows and attempts, same ledger and same abort |
| BulkCommission.RowFollowsItsAttempt | app.py:3559-3595 | a row not skipped is ok, with the node id, exactly when its attempt commissions within 120 s, and an error with the attempt's detail, or the ceiling's, exactly when it raises or takes longer |
| BulkCommission.RunSkipsExactlyTheSameMac | app.py:3552-3567 | over the device rows: a result is a skip exactly when an earlier row whose MAC agrees but for blanks and case was commissioned; it carries the name, or the id where there is none |
| BulkCommission.TallyCounts | app.py:3559-3595 | each counter is the number of results of its kind |
| BulkCommission.RunTakesItsAttemptsAndPauses | app.py:3569-3607 | a finished run takes its attempts, each cut off at 120 s, and 8 s between one and the next |
| BulkCommission.TallyConserves | app.py:3559-3595 | ok, failed and skipped add up to the results |
| BulkCommission.CommissionedOncePerMac | app.py:3559-3578 | a non-empty MAC is commissioned at most once in a run |
| BulkCommission.SeenExactlyWhenDuplicate | app.py:3555-3578 | the worker's set of seen MACs holds the next row's MAC exactly when an earlier row commissioned that device, and never the empty one |
| BulkCommission.FailuresThenOneSuccessThenSkips | app.py:3559-3595 | the rows of one physical device fail, then succeed once, then are skipped |
| BulkCommission.AbortsExactlyAtThirdFailure | app.py:3597-3601 | the run aborts exactly at the first point where the last three attempted devices failed |
| BulkCommission.ElapsedIsBounded | app.py:3496-3499 | a covered row takes at most its ceiling and one pause |
| BulkCommission.BulkRunKeepsLock | app.py:3537-3615 | the lease computed from the device count outlives the run: nobody acquires before the worker's own release, which takes effect |
| BulkCommission.DeadRunBlocksForItsLease | app.py:3537-3545 | a worker that dies leaves the lock to others from exactly 128 s a device and 300 s after its start |
| MatterWatchdog.Watchdog.SweepOnce | services/matter_watchdog.py:71-153 | a sweep is one step of the tables; afterwards the candidates are exactly the nodes with three failed heals in a row, all unavailable now |
| MatterWatchdog.Watchdog.HealStale | services/matter_watchdog.py:125-153 | the bounded round of interviews is the heal loop over the tables |
| MatterWatchdog.Watchdog.CollectUnavailable | services/matter_watchdog.py:96-103 | lists exactly the nodes whose availability, or else online flag, says no |
| MatterWatchdog.ListsThoseSaidNo | services/matter_watchdog.py:96-103 | the list is the ids, in the order of the answer, of exactly the nodes whose available flag is false, or whose is_online flag is where that is missing |
| MatterWatchdog.RunIsSound | services/matter_watchdog.py:71-153 | over any run: candidates as above, heals of a node 300 s apart, at most two a sweep |
| MatterWatchdog.HealsFirstEligible | services/matter_watchdog.py:125-135 | a sweep heals the first eligible nodes of the list, as many as it may, and no others |
| MatterWatchdog.EligibleByTheLog | services/matter_watchdog.py:126-132 | eligible are exactly the listed nodes that have not failed three heals in a row and whose last heal, clock 0 for none, is 300 s old |
| MatterWatchdog.EligibleInListedOrder | services/matter_watchdog.py:125-135 | in the order of the list |
| MatterWatchdog.IdleOnlyWhenGivenUpOrCooling | services/matter_watchdog.py:126-132 | nothing is eligible exactly when every node is given up on or within the cooldown of its last heal, a node never healed counting as healed at clock 0 |
| MatterWatchdog.FailingPass | services/matter_watchdog.py:125-153 | with failing interviews the failures still to come fall by one for each heal, so strictly at each sweep with an eligible node |
| MatterWatchdog.GivesUpAfterRemainingHeals | services/matter_watchdog.py:118-153 | from any sound tables, failing nodes are given up on exactly when as many heals have been made as remained, never more |
| MatterWatchdog.GivesUpOnAllAfterThreeHealsEach | services/matter_watchdog.py:118-153 | a fixed set of failing nodes is given up on exactly when three heals each have been made, which 3n productive sweeps suffice for |
| MatterWatchdog.GivesUpInTime | services/matter_watchdog.py:118-153 | from any sound tables with r failures to come and no heal within the cooldown, sweeps at most P seconds apart give up on the nodes within 600 + P + rP/2 seconds of the first sweep |
| MatterWatchdog.GivesUpInTimeAfterAnyHeals | services/matter_watchdog.py:118-153 | the same whenever they were healed last, one cooldown and one period later |
| MatterWatchdog.BootGivesUpInTime | services/matter_watchdog.py:118-153 | from boot, once the clock is past the cooldown, n failing nodes are given up on within 600 + P + 3nP/2 seconds |
| Subscriptions.BuildSubscriptions | services/instance_manager.py:1048-1084 | the nested loops build the list of selected pairs, each once |
| Subscriptions.WantedIsSelected | services/instance_manager.py:1010-1084 | that list holds exactly the devices and events some selected category maps, without duplicates |
| Subscriptions.UnmappedIsNeverSubscribed | services/instance_manager.py:993-1009 | a device listed only under unmapped output categories is never subscribed |
| Subscriptions.HeardThrough | services/instance_manager.py:1010-1043 | the table from the events' side: through which categories each event is heard, the pause buttons' chosen one included, and that only unmapped ones hear nothing |
| Subscriptions.SubscribedElements | services/instance_manager.py:548-587 | the lookup returns exactly the instances with a matching row, each once |
| Instances.InstanceManager.CreateInstance | services/instance_manager.py:155-226 | the whole new state of a create, failed insert included |
| Instances.InstanceManager.UpdateInstance | services/instance_manager.py:296-389 | the whole new state of an update, a failed patch restarting from the old row |
| Instances.InstanceManager.DeleteInstance | services/instance_manager.py:391-421 | the whole new state of a delete; the row's subscriptions go with it |
| Instances.InstanceManager.PauseInstance | services/instance_manager.py:427-475 | the whole new state of a pause, with the running app's own write and job |
| Instances.InstanceManager.AppPause | apps/base/pause_resume.py:34-102 | the app's own write of its pause, if it gets through, and the auto-resume job of a timed one |
| Instances.InstanceManager.AutoResume | apps/base/pause_resume.py:104-108 | a due job fires once and resumes the instance |
| Instances.InstanceManager.ResumeInstance | services/instance_manager.py:477-510 | clears the pause and its expiry; a running app's pending job is cancelled |
| Instances.InstanceManager.StartFromDb | services/instance_manager.py:673-719 | a start rebuilds the subscriptions, tracks the instance and clears its stop mark |
| Instances.InstanceManager.StopInstance | services/instance_manager.py:721-762 | a stop untracks a running instance, cancels its job and marks it stopped, and does nothing to another |
| Instances.InstanceManager.RestartInstance | app.py:913-926 | the start endpoint stops first, then starts from the current row |
| Instances.InstanceManager.RebuildSubscriptions | services/instance_manager.py:934-968 | deletes an instance's subscriptions and inserts those of its current row |
| Instances.InstanceManager.ResumeExpiredPauses | services/instance_manager.py:830-909 | resumes exactly the rows whose timed pause has elapsed and whose write gets through, and goes on after a failed one |
| Instances.InstanceManager.ReviveDeadInstances | services/instance_manager.py:764-828 | the reviver's loop is the fold over the listed rows |
| Instances.EveryHistory | services/instance_manager.py:155-968 | over every history: never both running and marked stopped, no subscription twice, no expiry and no pending job on an unpaused row; and index and rows agree when subscription writes succeed |
| Instances.RoutingFollowsRows | services/instance_manager.py:548-587 | events reach exactly the instances whose current row selects the device in a category mapped to the event, each once |
| Instances.RebuildMakesRight | services/instance_manager.py:934-968 | a rebuild makes an instance's subscriptions right whatever they were and touches no others |
| Instances.RebuildLeaves | services/instance_manager.py:934-968 | with writes that fail: the old subscriptions stay if the delete failed, the selected ones are there if the insert got through |
| Instances.RebuildIsIdempotent | services/instance_manager.py:934-968 | rebuilding twice leaves what rebuilding once left |
| Instances.StartHeals | services/instance_manager.py:697-710 | after any history with failed writes one successful start makes the subscriptions right |
| Instances.RevivesExactlyTheDead | services/instance_manager.py:764-828 | starts exactly the listed instances that are not running, not paused and past the grace period |
| Instances.PauseMinutesRoundUp | app.py:940-946 | seconds become minutes without shortening the pause and with less than a minute added; 0 stays without end, and less is a minute |
| Instances.TimedPauseBounds | services/instance_manager.py:427-475 | a timed pause stands until it is over and ends within 119 s, across any operations and restarts, the app's own job included, under a 60 s reconciler |
| Instances.IndefinitePauseStays | services/instance_manager.py:852-855 | a pause without end is ended by no reconciler tick and no job |
| InstanceHistories.RowExistsExactlyUntilDeleted | services/instance_manager.py:155-421 | over every history a row exists exactly when a create handed out its id and no delete got through since |
| InstanceHistories.RowHoldsWhatWasLastSent | services/instance_manager.py:296-389 | a row holds the selections and the button event last sent to it by a write that got through |
| InstanceHistories.EventReachesByLastSent | services/instance_manager.py:548-587 | an event reaches an instance exactly when the selections last sent list the device in a category that hears it, "held" being the button event where none was sent |
| InstanceHistories.UpdateReroutes | services/instance_manager.py:296-389 | after an update that gets through events follow the selections and the button sent, and the old ones where none were |
| InstanceHistories.CreatedAsGiven | services/instance_manager.py:155-226 | a create gives an unpaused row of what was given under an id never used before, running exactly when its app starts |
| InstanceHistories.DeletedForGood | services/instance_manager.py:391-421 | after a delete no later request, whatever fails, brings back the row, the app, an event or the id |
| InstanceHistories.NothingIsRoutedToTheGone | services/instance_manager.py:391-421 | whatever writes fail, no event is routed to an instance without a row |
| InstanceHistories.WhoRuns | services/instance_manager.py:673-828 | after any request: who is running, and since when an instance counts as stopped |
| InstanceHistories.StoppedStaysDownForGrace | services/instance_manager.py:721-828 | a stopped instance stays down through reviver rounds within the grace period, and the first one past it revives it exactly when it is unpaused and its app starts |
| InstanceHistories.PauseSchedulesItsEnd | apps/base/pause_resume.py:34-102 | a timed pause of a running instance expires whole minutes after the app's own write and gets a job due less than a minute past the time asked for |
| InstanceHistories.FiringEndsThePause | apps/base/pause_resume.py:104-108 | the job once due, like a resume, leaves nothing of the pause |
| InstanceHistories.FailedWriteKeepsRows | services/instance_manager.py:155-510 | a request whose row write fails leaves every row as it was |
| Fabrics.DecommissionNode | services/matter_debug.py:260-285 | removes what the reading lists, in order, and reports each; an absent node is left alone |
| Fabrics.PurgeNode | scripts/matter_legacy_orphan_purge.py:81-134 | the second implementation has the outcome of the first on the same reading; a failed reading or a dry run changes nothing |
| Fabrics.MatterDevice.RemoveFabric | services/matter_debug.py:245-258 | a command takes effect only while our session's fabric is present; losses and lost answers included |
| Fabrics.DecommissionRemovesWhatItReaches | services/matter_debug.py:260-285 | with the current index read correctly, and under any losses, exactly the targets whose command arrived are gone, and exactly those answered are reported removed |
| Fabrics.RemovesUntilSessionGoes | services/matter_debug.py:266-279 | for any targets, whatever index was read, exactly what arrived up to our session's own fabric is gone, and we keep our rights exactly when that did not arrive |
| Fabrics.ReportsUntilSessionGoes | services/matter_debug.py:273-279 | for any targets, reported removed is exactly what was answered up to then |
| Fabrics.KeepCurrentKeepsRightsExactlyWhenRead | services/matter_debug.py:260-272 | a decommission that keeps the current fabric keeps the device controllable exactly when the index read is our session's |
| Fabrics.DecommissionCleans | services/matter_debug.py:260-285 | without loss and with the current index read correctly nothing of ours is left, or only the current fabric when it is kept |
| Fabrics.DecommissionLeavesByVendor | services/matter_debug.py:260-285 | by vendor id: what is left is, in table order, the entries of other vendors than 65521 and the session's own when it is kept |
| Fabrics.ReportSplitsTargets | services/matter_debug.py:273-284 | removed and errors partition the targets |
| Fabrics.ReportKeepsOrder | services/matter_debug.py:273-284 | both lists are in the order tried |
| Fabrics.SessionIsTriedLast | services/matter_debug.py:266-272 | with the current index read correctly the current fabric is the last target, or none when kept |
| Fabrics.ForeignEntriesStay | services/matter_debug.py:266-272 | with the device's own table read, entries of others are never touched, whatever is lost and whatever current index was read |
| Fabrics.OtherVendorsStay | services/matter_debug.py:266-272 | by vendor id: an entry of another vendor than 65521 is there afterwards exactly when it was before |
| Fabrics.ForeignStayExactlyWhenNotListed | services/matter_debug.py:260-279 | with any table read, however stale, entries of others stay whatever is lost exactly when no index to be removed is theirs on the device |
| Fabrics.StaleReadingRemovesAnothersFabric | services/matter_debug.py:260-279 | a stale reading that removes a fabric of another |
| Fabrics.ClearsExactlyWhenSessionIsLast | services/matter_debug.py:266-279 | whatever index was read, a full removal without loss clears everything of ours exactly when our session's own fabric is the last target |
| Fabrics.UnreadIndexClearsExactlyWhenSessionIsLast | scripts/matter_legacy_orphan_purge.py:99-134 | with the index unread that is when our own entry is the last of ours in the table |
| Fabrics.UnreadIndexLeavesAnOrphan | scripts/matter_legacy_orphan_purge.py:99-134 | a table on which that purge leaves an orphan |
| Fabrics.CommissionLeavesOneOfOurs | app.py:3417-3434 | commission and a self-clean without loss leave the others' fabrics and one of ours, and the device controllable, exactly when the self-clean reads the new fabric's index as current |
| Fabrics.UnreadIndexLosesTheNewFabric | app.py:3417-3434 | a self-clean with the index unread removes the fabric just commissioned, on any device |
| Fabrics.RepeatedCommissionKeepsOneSlot | app.py:3417-3434 | however often it is repeated, and whatever earlier self-cleans lost or misread, exactly when the last one, without loss, reads the index correctly |
| HubClassifier.ClassifyHub | services/device_to_hubs_classifier.py:416-446 | splits a roster into natives and linked devices, in order, with stripped labels |
| HubClassifier.KeptAreTheLinesMarked | services/device_to_hubs_classifier.py:416-446 | natives are the devices of exactly the unlinked roster lines, in order: id, type, and the label, or the name where it is empty, without blanks around it |
| HubClassifier.FlagDuplicates | services/device_to_hubs_classifier.py:545-557 | flags in place exactly the natives that another one outranks |
| HubClassifier.GroupByKey | services/device_to_hubs_classifier.py:545-549 | one group for each non-blank normalised label, holding exactly its natives in order |
| HubClassifier.LabelsAgreeExactlyWhen | services/device_to_hubs_classifier.py:545-549 | labels compete exactly when they agree but for blanks around them and the case of letters |
| HubClassifier.WinnerOf | services/device_to_hubs_classifier.py:553 | the least by primary first, then hub id, the first among equals |
| HubClassifier.OneWinnerPerLabel | services/device_to_hubs_classifier.py:532-557 | every non-blank label has exactly one native that is no duplicate: on the primary hub if one with that label is there, else on the least hub id |
| HubClassifier.VerdictIgnoresHubOrder | services/device_to_hubs_classifier.py:532-557 | with distinct hub ids the verdicts do not depend on the order of the hubs |
| HubClassifier.RunClassification | services/device_to_hubs_classifier.py:526-627 | the whole run: natives collected, flags set, one routing entry per registered label |
| HubClassifier.LabelRoutesToItsWinner | services/device_to_hubs_classifier.py:581-627 | each non-blank label has exactly one routing entry, and it names the winner |
| HubClassifier.LabelRoutesToARosterLine | services/device_to_hubs_classifier.py:526-627 | from the rosters: a native line's label has exactly one routing entry, with hub, address, id and type of the native line of that label whose hub is primary if any is and has the least id among those |
| HubClassifier.BlankLabelRoutesToTheLast | services/device_to_hubs_classifier.py:587-598 | natives without a label share one routing entry, which names the last of them in the order of the hubs |
| HubClassifier.MirrorsLieElsewhere | services/device_to_hubs_classifier.py:600-615 | mirrors never include the home hub and are exactly the other hubs that list the label |
| HubClassifier.MirrorIsTheLastLineNamed | services/device_to_hubs_classifier.py:600-615 | from the rosters: another hub mirrors a label exactly when a line of it, native or linked, has that very name; the mirror is the last such line, linked ones after natives |
| HubClassifier.NativeMirrorsAreDuplicates | services/device_to_hubs_classifier.py:587-615 | a native that mirrors a routed label is a flagged duplicate |
| HubClassifier.NativeIsMirrorExactlyWhen | services/device_to_hubs_classifier.py:532-615 | a native is a mirror of its label's route exactly when it is on another hub, spelled like the winner, and not behind a later device of its label there |
| HubClassifier.FindMirrors | services/device_to_hubs_classifier.py:606-615 | the loop over the other hubs' tables |
| Broadcasts.Broadcaster.Connect | services/dashboard_broadcaster.py:69-82 | a new empty queue joins the list |
| Broadcasts.Broadcaster.Dashboard | services/dashboard_broadcaster.py:76 | the dashboard's queue size |
| Broadcasts.Broadcaster.EndToEnd | services/e2e_events.py:62 | the test-run broadcaster's queue size |
| Broadcasts.Broadcaster.Disconnect | services/dashboard_broadcaster.py:84-95 | takes the client off the list and keeps the others in order |
| Broadcasts.Broadcaster.Broadcast | services/e2e_events.py:89-114 | every matching queue with room gets the message; exactly the full ones are dropped; order kept |
| Broadcasts.Broadcaster.Take | services/e2e_events.py:71-77 | consuming takes the oldest queued message |
| Broadcasts.Offer | services/e2e_events.py:101-110 | the loop that fills queues and lists the full ones in ascending order |
| Broadcasts.PopDead | services/dashboard_broadcaster.py:122-123 | popping positions from the back is the order-preserving filter |
| Broadcasts.HearsASlice | services/dashboard_broadcaster.py:69-123 | consumed then queued is the matching part of what was said while subscribed |
| Broadcasts.HearsContiguousHistory | services/e2e_events.py:48-114 | that part is one stretch of the broadcast history, from the connection to now, to leaving, or to the first message that met a full queue |
| Broadcasts.HearsItsTopic | services/e2e_events.py:89-114 | of that stretch a dashboard client hears every message and a subscriber of an instance exactly that instance's, in order |
| Broadcasts.EndsAtFirstFullQueue | services/dashboard_broadcaster.py:84-123 | a subscription ends exactly at leaving or at the first wanted message that finds the queue full, and never resumes |
| Broadcasts.KeptExactlyWhileWithinCapacity | services/dashboard_broadcaster.py:97-123 | a client is kept exactly as long as its unconsumed backlog never exceeds the queue size |
| DeviceCommands.DeviceCommander.Execute | services/device_commander.py:674-898 | the whole outcome: backed off without a send, or the ending of the retry loops with its result, down to the latest value seen and the latest complaint, its breaker entry and status; verified implies accepted, VERIFIED and the expected state observed; the status stays UPDATING exactly for an unverified command that no send gets accepted |
| DeviceCommands.DeviceCommander.SendAndVerify | services/device_commander.py:700-884 | the outer loop: the ending, the number of sends, at most that many times the polls |
| DeviceCommands.DeviceCommander.VerifyPolls | services/device_commander.py:778-858 | the polls after one send: the first match confirms, unless the overall time ran out before |
| DeviceCommands.DeviceCommander.VerifyBackoffActive | services/device_commander.py:356-367 | active exactly at the threshold and within the backoff |
| DeviceCommands.DeviceCommander.RecordVerifyResult | services/device_commander.py:369-380 | success forgets the device, failure counts and from the threshold on renews the backoff |
| DeviceCommands.BackoffFollowsFailuresInARow | services/device_commander.py:356-380 | over any executions a device is backed off exactly when at least four of its verifications failed since one succeeded and the latest is under 300 s old |
| DeviceCommands.ConfirmationForgets | services/device_commander.py:369-375 | a confirmed execution leaves no entry of its device, which is then backed off at no time, and the others' entries alone |
| DeviceCommands.StatusTellsTheOutcome | services/device_commander.py:700-884 | the status left says what happened: which kind of poll ended the execution, or whether a send was accepted |
| DeviceCommands.FirstEndingPollDecides | services/device_commander.py:700-884 | a verifying command ends at the first reached poll that matches or is late, and exhausts its retries exactly when none does |
| DeviceCommands.FirstAcceptedSendDecides | services/device_commander.py:700-776 | a command without verification ends at the first accepted send, and exhausts its retries exactly when none is accepted |
| DeviceCommands.RefusedCommandNeverEnds | services/device_commander.py:753-763 | a refusing hub leaves UPDATING behind for any number of retries, and the breaker untouched |
| DeviceCommands.RefusedCommandStaysUpdating | models/command.py:17-29 | one such run of the object |
| DeviceCommands.FloodBound | services/device_commander.py:356-380 | with at most c executions at a time, at most 3 + c + c floor(T / 300) unverified ones start within T seconds of the first, whatever the breaker remembered and whatever was under way |
| DeviceCommands.OpenGateAdmitsAll | services/device_commander.py:356-367 | an open gate lets every command through until a failure is recorded |
| DeviceCommands.WholePoolAtOnce | services/device_commander.py:136-141 | all eight workers start at once on a device nothing is known of |
| DeviceCommands.FloodBoundIsTight | services/device_commander.py:173-174 | for every c and n some run starts 3 + c + c n within 300 n seconds |
| OpLog.OpLogHandler.Emit | services/matter_debug.py:80-91 | numbers every line, stores those that render, over the oldest when full |
| OpLog.OpLogHandler.Tail | services/matter_debug.py:93-96 | what a tail returns, as a function of everything emitted |
| OpLog.OpLogHandler.Poll | services/matter_debug.py:235-241 | the records and the cursor to come back with |
| OpLog.NumbersCountEveryLine | services/matter_debug.py:80-91 | a line's number is its place among all lines logged, those that do not render included |
| OpLog.PollIsASuffix | services/matter_debug.py:93-96 | a poll reports a stretch up to the newest record, past the cursor |
| OpLog.PollIsCompleteExactlyWithinAllowance | services/matter_debug.py:93-96 | it reports everything new exactly when no more than its allowance arrived, for any limit |
| OpLog.ReceivedIsASubsequence | services/matter_debug.py:235-241 | over any emits, gaps and polls that feed back the cursor the results are strictly increasing and were emitted |
| OpLog.KeepingUpLosesNothing | services/matter_debug.py:235-241 | when polls keep up, nothing is lost or repeated |
| Eui64.RoundTripsExactlyWhenFirstFieldIsNonzero | services/matter_discovery.py:46-62 | parsing the canonical text of a MAC's link-local address gives the MAC back, exactly when the first interface field is not zero |
| Eui64.AcceptsExactlyEui64 | services/matter_discovery.py:46-62 | four groups of one to four digits are accepted exactly when they are the modified EUI-64 of a MAC, which is the result |
| Eui64.XorTwoFlips | services/matter_discovery.py:58 | the exclusive or with 2 inverts the universal/local bit and no other |
| Eui64.MacTextReadsBack | services/matter_discovery.py:60 | the result's pieces read back as the address's bytes |
| Eui64.MacTextIsLowerCase | services/matter_discovery.py:60 | two lower-case digits a byte, high half first, with colons between |
| Eui64.DigitsInEitherCase | services/matter_discovery.py:54 | digits are read in either case |
| Eui64.PrefixAndFurtherDoubleColon | services/matter_discovery.py:46-54 | only text with the prefix is accepted, and what follows another double colon does not matter |
| Eui64.CanonicalLinkLocal | services/matter_discovery.py:46-54 | the canonical text of such an address: prefix, double colon, three or four fields |
| TvPower.TvClient.PollPower | services/hisense_tv_client.py:534-592 | one poll is one step of the debouncer, each change announced once |
| TvPower.TvClient.ObservePower | services/hisense_tv_client.py:594-632 | an observation is ON exactly when the TV is reachable and the first answer within the retry says ON |
| TvPower.ObservationsByAnswer | services/hisense_tv_client.py:594-632 | OFF, DOZE, unreadable output, a TV that cannot be reached and one that fails to answer twice all count as OFF |
| TvPower.TvClient.UpdatePowerState | services/hisense_tv_client.py:634-650 | the callback fires only on a change |
| TvPower.OnExactlyWhenRecentlySeenOn | services/hisense_tv_client.py:534-592 | the state is ON exactly when one of the last three observations was |
| TvPower.StreakIsTrailingOff | services/hisense_tv_client.py:562-592 | the streak counts the OFF observations at the end |
| TvPower.AnnouncementsAlternate | services/hisense_tv_client.py:634-650 | announcements alternate and end with the current state |
| TvPower.AnnouncementsAreBounded | services/hisense_tv_client.py:534-592 | k announcements take at least 2k - 3 observations |
| TvPower.AnnouncementBoundIsTight | services/hisense_tv_client.py:534-592 | the bound is attained for infinitely many lengths |

## Left out

- CircuitBreakers.CircuitBreaker.CallSync: one call with nothing between its gate and its record; calls that interleave are the runs of `System`.
- Circuit breaker: the snapshot, the last failure's time and text, the registry, and cancellation of awaited calls, which is recorded as neither success nor failure.
- Pairing lock: the status query and the pre-flight check that uses it, which the code calls advisory.
- Bulk run: the progress message, the current device, the finish time and the endpoint that starts it.
- Watchdog: the snapshot's texts and times of the last interviews, and its loop's sleep.
- Instances.IndefinitePauseStays: starts from an unpaused row; an indefinite pause over a timed one keeps the old expiry and job and may be ended by them.
- Instances.InstanceManager.StopInstance: an app's shutdown cancels its jobs; one that raises before that is not modelled.
- Instances: the reports of the reviver and of the reconciler, app types, memoization, the bulk start at boot (a restart followed by starts), and the apps themselves.
- Subscriptions: selections hold an integer or text that is none; a category's name is a datatype.
- Fabrics: reading attributes out of the node's map, and the purge's check after removal.
- HubClassifier: which protocol a device type stands for, the ingest into the device table, the presence flags and the write of the routing table; hubs' rosters are oracles.
- Text: strings are ASCII where they are lowered or stripped.
- Broadcasts: the time stamps put into messages, keep-alive events and the locks.
- DeviceCommands.FloodBound: executions that end by the overall timeout are not recorded by the breaker, so it counts the ones that exhaust their retries only.
- DeviceCommander: the Matter-first path, hub resolution, the command log, the cache update after verification and the catch-all for unexpected errors.
- OpLog: time, level and logger of a record are part of its text; the other log endpoint reads entries and cursor separately and is not modelled.
- Eui64.MacFromIpv6: a byte with a sign, a blank or a digit of another script is refused here, while the integer parser of the original takes some of them.
- TvPower: reading the state out of the printed line, the ADB connection attempts, back-off and command queue.
- Level and colour conversions, the timezone vote, name normalisation, the database size cap, the event socket's back-off and the scenario builder: easier, or not decided by this code.
