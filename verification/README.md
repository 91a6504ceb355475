# wifi-shepard: verified kick control

wifi-shepard watches a UniFi network, decides which clients are stuck on a bad link, and
disconnects ("kicks") them so that they re-associate. This project models the part of the daemon
that decides who is kicked, how often, and what the audit ledger says about it, together with the
detectors that feed it, and proves what that machinery guarantees over whole runs.

`dafny verify dfyconfig.toml` checks everything.

## How it is organised

| files | what they hold |
|---|---|
| `Windows`, `BoundedDeque` | one theory of timestamp windows: counts in a closed window, admission, pruned deques against full history |
| `Config`, `Resolution`, `Ledger` | configuration as values, per-MAC resolution and quiet hours, the append-only kick ledger |
| `Backoff`, `RetryAfter`, `Relocking`, `RateLimit`, `Pending`, `Rationale`, `Actor` | the four gates and the actor, as classes proved against specification functions; what a denial's retry-after means |
| `World`, `Moves` | the daemon as a step machine, and the three things a `handle` can do |
| `AdmissionRuns`, `NoticeRuns` | exactly when a handle puts a call on the wire, sends a notice or raises, said of the history and the configuration alone |
| `LedgerRuns`, `HourRuns`, `WireRuns`, `WindowRuns`, `PairingRuns`, `DryRuns`, `RecordRuns`, `AuditRuns` | whole-run theorems: rolling caps, ladder, quarantine, single-flight, per-AP cap, BTM pairing, dry runs, wire against ledger, audit trail and allowlist |
| `ScanRuns`, `RoamRuns`, `FallbackRuns` | the order in which the scanner checks and handles, what that order guarantees, and runs that show what it does not |
| `Scorer`, `Inactivity`, `DnsThrash`, `DnsHistory`, `Scanner` | the detectors and the DNS half of the scan cycle |
| `Pipeline`, `Daemon` | reload: what it keeps, what it rebuilds, and the file watch |
| `Reboot`, `RebootRuns` | the reboot cooldown and the proactive scheduler, a second client of the window theory; exactly when a device is rebooted |
| `Document`, `DeviceConfig`, `DeviceSettings` | per-device edits of the configuration document as a lens |

The daemon is a step machine. A step is a handled client, a roam check, a reload or a restart; a
handle carries the clock readings it took before and after the wire call, and whether the wire
call, the ledger insert and the notification returned or raised. A run is the sequence of worlds
between steps, so a theorem about `ws[k]` of every run is a theorem about every reachable world.
Every imperative file of the source is a class whose methods are proved equal to the specification
functions the step machine is built from.

## Where the code and its documentation differ

The model follows the code.

- A comment in `actor.py:168-171` says the rationale is written on every row, fallback included;
  the fallback insert (`actor.py:243-249`) passes none. `Actor.FallbackRow` carries none.
- ADR-0003 lets the deauth fallback follow one poll cycle after the BTM. Two triggers of one scan
  cycle can each reach `handle`, so it can follow within the cycle, once the single-flight minimum
  has passed: `WireRuns.NextHandleFallsBackIff`, `FallbackRuns.OneCycleKicksTwice`.
- `backoff.py:68-69` calls `retry_after` the time the gate next clears. For a cap that is so
  exactly when fewer than the cap's number of kicks are newer than the oldest in the window
  (`Backoff.CapClearsAfterCountdownIff`); a reload that lowers the cap can leave more
  (`RetryAfter.OverfullCapOutlastsRetryAfter`). For the ladder the gate is open at that time
  exactly when the run left by then is on no longer a rung than the one that denied
  (`RetryAfter.OverAtRetryAfterIff`), which a falling ladder can break
  (`RetryAfter.DeniesAtRetryAfter`); and on a non-decreasing ladder it is closed until then exactly
  when the two rungs are equal (`RetryAfter.LastsUntilRetryAfterIff`, `RetryAfter.OpensBeforeRetryAfter`).
  Which policies re-lock after opening is `Relocking.NeverRelocksIffNotExposed`.
- A comment in `actor.py:373-380` says clearing on a roam keeps a stale BTM from ever falling back
  under an unrelated group, past the backoff budget. It does so only while the outcome is unread:
  a client that stays for one poll keeps its BTM pending, wherever it goes later
  (`ScanRuns.CheckClearsIff`, `FallbackRuns.StaleBtmFallsBackPastTheCaps`). A roam seen at the first
  check does end the group (`RoamRuns.SeenRoamEndsTheGroup`).
- A reload that grows the per-AP window or turns the cap on from 0 leaves a deque that under-counts
  (`RateLimit.GrownWindowUnderCounts`, `RateLimit.CapTurnedOnUnderCounts`); exactly when it does not
  is `WindowRuns.ReloadIsSafeIffNotGrown` and `WindowRuns.GateSeesTheFullHistoryIff`.
- A comment in `device_config.py:113-114` says `allowlist: null` is refused; the walk cannot tell a
  null from a missing node, so it is replaced (`DeviceConfig.NullListIsReplaced`). Anything but a
  mapping on the way to the list is replaced as well (`DeviceConfig.ScalarParentIsReplaced`,
  `DeviceConfig.ToggleOverwritesIff`).

## Model

| member | source | states |
|---|---|---|
| Windows.SpacingIsWindowCap | src/wifi_shepard/backoff.py:71-78 | in an ascending sequence, every closed window of length w holds at most cap elements if and only if any cap + 1 consecutive ones span more than w |
| Windows.AdmissionKeepsSpacing | src/wifi_shepard/backoff.py:71-78 | admitting an element stamped at or after a gate that saw fewer than cap recent ones keeps every closed window within the cap |
| Windows.PrunedDequeIsWindow | src/wifi_shepard/rate_limit.py:82-88 | popping stale heads off a deque that has only ever lost stale elements leaves exactly the full history's trailing window |
| BoundedDeque.AppendedKeepsTail | src/wifi_shepard/scorer.py:58-61 | a bounded deque fed a whole history always holds that history's tail |
| Backoff.TruncatedLookupIsExact | src/wifi_shepard/actor.py:267-275 | the truncated ledger query gives the same verdict, reason and retry-after as the MAC's whole history, for every ledger and policy |
| Backoff.VerdictIff | src/wifi_shepard/backoff.py:53-91 | for a history in order, the gate allows a kick if and only if the closed day and hour that end now hold fewer kicks than their caps and the newest kick is as old as the rung for the kicks within the longest cooldown; a full day is named before a full hour, either before the cooldown |
| Backoff.CapCountsDown | src/wifi_shepard/backoff.py:71-78 | a tripped cap stays tripped and its retry-after falls second for second to zero inclusive |
| Backoff.CapDenialPersists | src/wifi_shepard/backoff.py:60-91 | the whole gate keeps the same denial reason and counts down until retry-after reaches zero |
| Backoff.CapClearsAfterCountdownIff | src/wifi_shepard/backoff.py:68-78 | strictly after the countdown the cap is clear for good if and only if fewer than cap kicks are newer than the oldest one in the window |
| Backoff.ExactlyFullCapClears | src/wifi_shepard/backoff.py:71-78 | a window holding exactly the cap's number of kicks meets that condition |
| Backoff.CooldownPassesAtRetryAfter | src/wifi_shepard/backoff.py:79-90 | on a non-decreasing ladder the cooldown has passed at retry-after and at every later time |
| RetryAfter.OverAtRetryAfterIff | src/wifi_shepard/backoff.py:79-91 | for every ladder, a cooldown denial is over at its retry-after if and only if the run left by then is on a rung no longer than the one that denied |
| RetryAfter.LastsUntilRetryAfterIff | src/wifi_shepard/backoff.py:79-91 | on a non-decreasing ladder it lasts until its retry-after if and only if the two rungs are equal |
| RetryAfter.GateOpensAtRetryAfterIff | src/wifi_shepard/backoff.py:53-91 | when the cooldown is what denies, the whole gate, caps included, is open at its retry-after if and only if that later rung is no longer |
| RetryAfter.OpensBeforeRetryAfter | src/wifi_shepard/backoff.py:79-91 | a rising ladder and two kicks whose denial is over before its retry-after |
| RetryAfter.DeniesAtRetryAfter | src/wifi_shepard/backoff.py:79-91 | a falling ladder and two kicks still denied at the retry-after |
| RetryAfter.OverfullCapOutlastsRetryAfter | src/wifi_shepard/backoff.py:71-78 | two kicks under a cap of one, still denied after the retry-after |
| Backoff.AllowedStaysAllowed | src/wifi_shepard/backoff.py:53-91 | on a non-decreasing ladder, once the gate allows a kick it goes on allowing it while nothing is kicked |
| Relocking.NeverRelocksIffNotExposed | src/wifi_shepard/backoff.py:71-91 | for every ladder and both caps, waiting never re-locks the gate if and only if no rung is followed by a shorter one that the caps leave within reach |
| Relocking.NeverRelocksIffNonDecreasing | src/wifi_shepard/backoff.py:79-90 | with the caps off, that is: if and only if the ladder is non-decreasing |
| Backoff.BackoffManager.RecordKick | src/wifi_shepard/backoff.py:36-37 | one MAC's counter rises by one, every other entry stays |
| Backoff.BackoffManager.ShouldQuarantine | src/wifi_shepard/backoff.py:39-40 | quarantined exactly when the counter has reached the limit in force; asking creates the entry |
| Ledger.SortedIsAscendingPermutation | src/wifi_shepard/db.py:432-451 | the ORDER BY returns the selected timestamps, each as often as selected, ascending |
| Ledger.FromOnSorted | src/wifi_shepard/db.py:432-451 | selecting by time and ordering commute |
| Ledger.LogicalTsIgnoresDryRuns | src/wifi_shepard/db.py:445-449 | dry-run rows never reach the backoff query |
| RateLimit.KickRateLimiter.CanKick | src/wifi_shepard/rate_limit.py:42-58 | global timer first, then the pruned per-AP cap, with reason and retry-after; prunes only when it gets to the cap |
| RateLimit.GateOpensIff | src/wifi_shepard/rate_limit.py:35-58 | the gate is open if and only if the minimum is off, nothing went out or it has passed, and the cap is off or fewer than its number of kicks are left of the AP's deque; the timer is named whenever it is a reason |
| RateLimit.TimerRetryIsExact | src/wifi_shepard/rate_limit.py:35-40 | the timer's retry-after is exactly when the timer passes |
| RateLimit.CapRetryIsOldest | src/wifi_shepard/rate_limit.py:52-58 | the cap's retry-after is when the oldest kick left is a window old: the gate defers, counting down, until then, and a deque that was exactly full has room after it |
| RateLimit.KickRateLimiter.CanWireCall | src/wifi_shepard/rate_limit.py:60-67 | the fallback's gate is the global timer alone and changes nothing |
| RateLimit.KickRateLimiter.Prune | src/wifi_shepard/rate_limit.py:82-88 | the popleft loop removes exactly the leading stale times of one AP |
| RateLimit.KickRateLimiter.RecordKick | src/wifi_shepard/rate_limit.py:69-76 | restarts the timer, and appends to the AP's deque only while the cap is on |
| RateLimit.GrownWindowUnderCounts | src/wifi_shepard/rate_limit.py:82-88 | a concrete run in which a grown window admits a kick the full history would refuse |
| RateLimit.CapTurnedOnUnderCounts | src/wifi_shepard/rate_limit.py:69-76 | after any number of kicks with the cap off, at least the cap later turned on and all still in its window, the gate admits another where a limiter holding the same history refuses it |
| Pending.PendingKicks.PopOutcome | src/wifi_shepard/pending.py:47-48 | returns and removes one MAC's awaiting outcome |
| Actor.Actor.Handle | src/wifi_shepard/actor.py:150-353 | the whole new state, the rows appended and whether it raised, for every combination of gates and failures |
| Actor.Actor.FallBack | src/wifi_shepard/actor.py:217-257 | a raised wire call changes nothing; a failed insert keeps the BTM pending; success writes one row under the BTM's group and clears it |
| Actor.Actor.SendFresh | src/wifi_shepard/actor.py:300-353 | nothing is counted or recorded when the wire call raises; the BTM, timer and counter stand when the insert raises |
| Actor.Actor.PassesBackoff | src/wifi_shepard/actor.py:259-287 | the per-MAC gate on the truncated ledger query, skipped when every limit is off |
| Actor.Actor.HandleDryRun | src/wifi_shepard/actor.py:175-203 | a throttled audit row and no other effect |
| Actor.Actor.NotifyQuarantine | src/wifi_shepard/actor.py:205-209 | notifies once; a notification that raises is not marked as sent |
| Actor.Actor.CheckPostKickOutcome | src/wifi_shepard/actor.py:355-382 | consumes the outcome, reports a roam exactly when the AP changed, and clears a roamed BTM's pending entry |
| Actor.Store.InsertKick | src/wifi_shepard/db.py:329-356 | appends one row or raises and leaves the ledger as it was |
| Moves.HandleMoves | src/wifi_shepard/actor.py:150-353 | every handle is one of three moves: nothing on the wire, a fresh kick past both gates, or the fallback of a pending BTM |
| AdmissionRuns.HandleCallsIff | src/wifi_shepard/actor.py:150-353 | in every run whose reloads do not grow the per-AP window, a handle sends a fresh kick, by the configured mechanism, if and only if it is not a dry run, the MAC's fresh calls are below its limit, no BTM of it waits at this AP, its ledger rows leave room under its configured day and hour and have cooled down, the pipeline's last call is the minimum ago, the AP's counted kicks leave room in the window and the wire call returns; the fallback of a waiting BTM likewise; and nothing else |
| NoticeRuns.QuarantineIsToldOnce | src/wifi_shepard/actor.py:205-209 | in every run a pipeline announces a MAC's quarantine at most once, exactly at a live handle that finds its fresh calls at the limit and none announced before, when somebody listens and the notification returns |
| NoticeRuns.KickIsToldIff | src/wifi_shepard/actor.py:335-353 | a kick notice goes out exactly with a fresh call whose row was written |
| NoticeRuns.RunRaisesIff | src/wifi_shepard/actor.py:150-353 | in such a run a handle raises if and only if a row, announcement, wire call or notice it gets to does not come through |
| LedgerRuns.EveryWindowHoldsTheCap | src/wifi_shepard/actor.py:263-333 | in every run, across failures, reloads and restarts, every closed hour (day) holds at most the cap's number of a MAC's logical rows |
| LedgerRuns.LadderBoundsEveryWindow | src/wifi_shepard/backoff.py:79-90 | in every run, m logical rows within less than the longest cooldown number at most the rungs and span at least the first m - 1 rungs added up |
| WireRuns.KickCountIsFreshCalls | src/wifi_shepard/actor.py:308-325 | in every reachable world the quarantine counter equals the MAC's successful fresh wire calls |
| WireRuns.QuarantineBoundsCalls | src/wifi_shepard/actor.py:205-257 | under a limit N >= 1 a pipeline gives a MAC at most N fresh calls, N - 1 recorded fallbacks, and 2N - 1 calls in all beyond its own fallbacks whose insert failed |
| RecordRuns.RowsAreTheRecordedCalls | src/wifi_shepard/actor.py:175-333 | in every run from an empty ledger, whatever fails, the live rows are the recorded wire calls and the dry-run rows the recorded throttle writes, one for one and in order: MAC, mechanism and group, or MAC and time |
| RecordRuns.InsertsSucceedingRecordAll | src/wifi_shepard/actor.py:243-333 | when no insert fails, the live rows are all the wire calls, one row each and in the order sent |
| RecordRuns.EveryRecordedCallHasItsRow | src/wifi_shepard/actor.py:243-257 | whatever inserts fail, each recorded call in a pipeline's wire log has a live row with its MAC, mechanism and group |
| RecordRuns.EveryLiveRowHasItsCall | src/wifi_shepard/actor.py:318-333 | each live row was appended by the very step that sent such a call, its only one |
| HourRuns.EveryWindowHoldsTheCalls | src/wifi_shepard/actor.py:217-333 | when no insert fails, every closed hour (day) holds at most twice the cap's number of a MAC's calls, fallbacks included, and one more for each pipeline |
| FallbackRuns.FallbacksAreUnbounded | src/wifi_shepard/actor.py:221-257 | for every n there is a run of n + 1 polls from boot, each one check and one flag, in which a MAC below its limit gets one kick and then a fallback call in every poll, because every fallback's insert fails |
| WireRuns.NextHandleFallsBackIff | src/wifi_shepard/actor.py:214-257 | right after a fresh kick, the next handle of that client at that AP sends the fallback if and only if a BTM was sent, the MAC stays below its limit, the single-flight minimum has passed and the wire call goes out |
| FallbackRuns.OneCycleKicksTwice | src/wifi_shepard/scanner.py:99-107 | a run of a single scan cycle, no failure at all, whose RF flag sends a BTM and whose inactivity flag sends that BTM's fallback |
| WireRuns.WireCallsKeepTheirDistance | src/wifi_shepard/rate_limit.py:35-40 | under arbitrary reloads, each successful call, fresh or fallback, is at least the minimum then in force after every earlier call of the pipeline |
| WindowRuns.EveryWindowHoldsTheApCap | src/wifi_shepard/rate_limit.py:42-58 | in every run, under any reloads, the cap going off and on at will, every closed window no longer than the smallest one yet in force in the pipeline holds at most the cap's number of an AP's fresh kicks beyond those made while the cap was off |
| WindowRuns.NarrowingLeastIsCurrent | src/wifi_shepard/pipeline.py:62-69 | when no reload grows the window, that smallest one is the window in force |
| WindowRuns.CapStayingOnHoldsOutright | src/wifi_shepard/rate_limit.py:42-58 | if the cap is never off, every such window holds at most the cap's number, outright |
| WindowRuns.GateSeesTheFullHistoryIff | src/wifi_shepard/rate_limit.py:69-88 | at every gate of a run whose reloads do not grow the window, the pruned deque equals the AP's full history from now - window on if and only if no kick in it was made while the cap was off |
| WindowRuns.GateOpensOnHistoryIff | src/wifi_shepard/rate_limit.py:35-58 | at every gate of such a run, it is open if and only if the pipeline's last call is the minimum ago and, with the cap on, the window that ends now holds fewer than its number of the AP's counted kicks, which are all its fresh kicks there when none was made with the cap off |
| WindowRuns.ReloadIsSafeIffNotGrown | src/wifi_shepard/pipeline.py:62-69 | a reload of the per-AP window leaves every pruned deque exact if and only if it does not grow the window |
| WindowRuns.CapTurnedOnIsExactIff | src/wifi_shepard/pipeline.py:62-69 | a reload that turns the cap back on leaves a deque exact if and only if the kicks made while it was off have left the window |
| AuditRuns.EveryRowExplainsItself | src/wifi_shepard/actor.py:168-333 | in every run whose handles carry what the pipeline's own detectors decided, every row's rationale convicts the client it names (exactly the active criteria breached, bytes below the floor, or queries above the threshold); fallback rows carry none |
| AuditRuns.EveryRowIsOffTheAllowlist | src/wifi_shepard/scanner.py:90-164 | in every such run, each ledger row was appended by a step at which the acting pipeline did not allowlist its MAC |
| AuditRuns.EveryCallIsOffTheAllowlist | src/wifi_shepard/scanner.py:90-164 | and each wire call was sent by one |
| PairingRuns.EveryFallbackHasItsBtm | src/wifi_shepard/actor.py:217-257 | every fallback wire call carries the group of an earlier successful BTM call for the same MAC and AP, whatever inserts failed |
| PairingRuns.EachGroupIsOneKick | src/wifi_shepard/actor.py:288-333 | each group has at most one logical row and at most one fallback row |
| PairingRuns.LogicalRowsAreGroups | src/wifi_shepard/actor.py:318-333 | when inserts succeed, every fallback row follows its BTM row, and logical rows equal distinct groups in number |
| ScanRuns.ScansAreOrdered | src/wifi_shepard/scanner.py:90-164 | whatever the scanner does, poll after poll, each handle follows the check of its own snapshot with no other check of that MAC between, even if a poll lists a MAC twice |
| ScanRuns.RoamClearsItsOwnEntry | src/wifi_shepard/actor.py:355-382 | in every run in that order, whatever inserts fail, an awaited BTM matches the pending entry, so a roam clears the entry of its own kick |
| ScanRuns.CheckClearsIff | src/wifi_shepard/actor.py:373-382 | a check clears a pending BTM if and only if an unread BTM outcome at another AP is there |
| FallbackRuns.StaleBtmFallsBackPastTheCaps | src/wifi_shepard/actor.py:373-382 | under an hourly cap of one, a run of polls with every insert succeeding: the client stays one poll, is then seen anywhere or nowhere, and its next handle at the old AP, any time from the single-flight minimum to the hour, is a fallback under the old group although the cap denies it a kick |
| RoamRuns.SeenRoamEndsTheGroup | src/wifi_shepard/actor.py:355-382 | in every run in scan order, once the first check after a recorded BTM finds another AP, no fallback is ever sent under that BTM's group, whatever fails |
| PairingRuns.RoamClearsItsOwnEntry | src/wifi_shepard/actor.py:355-382 | in any order of steps, if inserts succeed, the pending entry a roam removes has the outcome's own group and AP |
| DryRuns.ErasingDryRunsChangesNothingLive | src/wifi_shepard/actor.py:175-203 | deleting every dry-run step from any run leaves wire log, live rows, pending maps, counters and limiter unchanged |
| DryRuns.DryRunWritesAreThrottled | src/wifi_shepard/actor.py:190-203 | dry-run writes for one MAC in one pipeline's lifetime are at least the interval then in force apart |
| DryRuns.DryRunWritesIff | src/wifi_shepard/actor.py:175-203 | in every run a handle writes a dry-run row if and only if the pipeline is in dry-run mode and wrote none of the MAC within its first cooldown, or 300 seconds without a ladder |
| RecordRuns.DryRowsAreThrottled | src/wifi_shepard/actor.py:190-203 | the persisted dry-run rows of two such writes lie at least the interval apart, less the time between the earlier one's gate reading and its row |
| Rationale.RationaleNamesActiveCriteria | src/wifi_shepard/actor.py:46-87 | the breached list of an RF kick is exactly the active criteria and never empty |
| Rationale.RationaleQuotesItsSources | src/wifi_shepard/actor.py:40-96 | every rationale carries the decision's own numbers, whether the MAC has an override row, the sample's exact retry rate, and as breached exactly the criteria the sample breaches |
| Resolution.ResolveThresholds | src/wifi_shepard/resolution.py:21-31 | the first override row of the MAC, field by field, over the global values |
| Resolution.ResolveCaps | src/wifi_shepard/resolution.py:51-66 | the first override row's caps over the global ones |
| Resolution.FirstRowGoverns | src/wifi_shepard/resolution.py:21-66 | if row k is the first with the MAC, each threshold and cap is that row's value where it sets one and the global value where it does not |
| Resolution.NoRowInherits | src/wifi_shepard/resolution.py:21-84 | if no row has the MAC, thresholds, caps, mechanism and DNS limit are the global ones |
| Resolution.FirstMechanismGoverns | src/wifi_shepard/resolution.py:43-48 | the mechanism is that of the first row of the MAC that sets one, an earlier row that sets none notwithstanding, else the global one |
| Resolution.FirstDnsMaxGoverns | src/wifi_shepard/resolution.py:69-84 | so is the DNS limit |
| Resolution.ApplyQuietHours | src/wifi_shepard/resolution.py:106-123 | each criterion active on both sides takes the stricter value, every other one keeps its own |
| Resolution.QuietHoursIsAnArc | src/wifi_shepard/resolution.py:90-103 | the window, wrapped or not, is the clockwise arc from start up to and excluding end |
| Scorer.IsBadState | src/wifi_shepard/scorer.py:12-46 | true exactly when there are samples, some criterion is active, and every sample breaches every active one on a watched, busy radio |
| Scorer.BadSampleIff | src/wifi_shepard/scorer.py:29-46 | a sample is bad if and only if its radio is watched, its AP is busy enough and every criterion set is breached, the retry rate compared in whole numbers |
| Scorer.TightenedBadIff | src/wifi_shepard/resolution.py:106-123 | a sample is bad under tightened thresholds if and only if it is bad under the thresholds and breaches the quiet-hours ceilings of the criteria set on both sides |
| Scorer.Scorer.Ingest | src/wifi_shepard/scorer.py:63-89 | new windows and decision for every sample, allowlist, override and quiet-hours case |
| Scorer.WindowIsTail | src/wifi_shepard/scorer.py:58-76 | through any reloads, a MAC's deque is the tail of its counted samples and has the configured size |
| Scorer.FlaggedIffWholeWindowBad | src/wifi_shepard/scorer.py:63-89 | a sample is flagged if and only if its MAC is not allowlisted, some criterion is set, and its last W non-allowlisted samples exist and are all bad under its thresholds and, if quiet hours are on now, under theirs; the flag says whether they are |
| Scorer.QuietHoursNeverAddAFlag | src/wifi_shepard/resolution.py:106-123 | on any stream, every flag raised with quiet hours is also raised without them |
| Inactivity.InactivityScorer.Ingest | src/wifi_shepard/inactivity.py:64-117 | new baselines, windows and decision for every sample: gap, first reading, counter reset, delta |
| Inactivity.WindowTelescopes | src/wifi_shepard/inactivity.py:95-110 | the sum of the delta window is the latest total minus the total a window's length earlier |
| Inactivity.DetectorRefinesTotals | src/wifi_shepard/inactivity.py:52-117 | over any stream and reloads the bounded delta windows hold exactly what the reference totals determine |
| Inactivity.FlaggedIffFlatlined | src/wifi_shepard/inactivity.py:64-117 | a sample is flagged if and only if the detector is enabled, its client is opted in and not allowlisted, and the last W + 1 totals since the last reset, gap or flag exist and rise by less than the floor; the flag carries that rise, the floor and W |
| Inactivity.TotalsNeverFall | src/wifi_shepard/inactivity.py:95-101 | those totals never decrease |
| Inactivity.FlagsAreAWindowApart | src/wifi_shepard/inactivity.py:103-117 | after one flag, the next flag of the MAC comes no sooner than its own W-th usable sample, whatever other clients are sampled between |
| DnsThrash.DnsThrashDetector.Observe | src/wifi_shepard/dns_thrash.py:68-151 | new counts, markers, flags and standings of a poll, failed or successful |
| DnsThrash.JoinIsLastHolder | src/wifi_shepard/dns_thrash.py:74-80 | an address is in the join if and only if some client reports it non-blank, and it then belongs to the MAC of the last client that does |
| DnsThrash.PruneDomains | src/wifi_shepard/dns_thrash.py:111-121 | the popleft loops keep exactly each domain's unexpired tail, drop emptied domains, and report the live counts |
| DnsThrash.RunIsTidy | src/wifi_shepard/dns_thrash.py:115-129 | after any polls no empty deque or domain map remains and every marked MAC is counted |
| DnsThrash.MarkerIsStreakStart | src/wifi_shepard/dns_thrash.py:128-134 | over_since is the time of the first poll of the maximal over-threshold suffix of successful polls |
| DnsThrash.FlaggedIffSustained | src/wifi_shepard/dns_thrash.py:128-136 | a MAC is flagged if and only if that suffix, this poll included, is at least the sustain time old |
| DnsThrash.PruningKeepsTheWindow | src/wifi_shepard/dns_thrash.py:97-121 | in whatever order queries arrive, each retained deque is everything ever joined from the first query inside the window on, holds every query inside the window, and is the window itself if and only if nothing stale arrived behind that first query |
| DnsHistory.FlaggedIffLoudLongEnough | src/wifi_shepard/dns_thrash.py:68-151 | in whatever order queries arrive, a MAC is flagged if and only if the queries joined to it, from the first one inside the window on, exceed its threshold for some domain at every successful poll since a streak start at least the sustain time ago; when none arrives stale, the queries inside the window alone |
| DnsHistory.InOrderIsNotStale | src/wifi_shepard/dns_thrash.py:97-121 | with arrivals in order of time none arrives stale |
| DnsHistory.LoudIsNeverMissed | src/wifi_shepard/dns_thrash.py:97-151 | in any order of arrival, a MAC above its threshold inside the window at every successful poll for the sustain time is flagged |
| DnsHistory.StandingsSayTheHistory | src/wifi_shepard/dns_thrash.py:111-150 | a poll records a standing exactly for a MAC and domain with joined queries left since the first one inside the window, with their number, the MAC's threshold, and the time its loud streak began if it is in one |
| Scanner.FoldLoudest | src/wifi_shepard/scanner.py:141-147 | the loop computes the specified fold |
| Scanner.LoudestIsFirstMaximum | src/wifi_shepard/scanner.py:141-147 | the fold holds, for exactly the MACs that stand, the first standing with the highest count |
| Scanner.RunDnsThrash | src/wifi_shepard/scanner.py:139-164 | which flagged MACs are handled, in which order and with what evidence |
| Scanner.DnsKicksAreIncriminating | src/wifi_shepard/scanner.py:139-164 | every DNS kick's recorded query count exceeds its recorded threshold, for a present client that is not allowlisted |
| Scanner.EveryReachableFlagIsKicked | src/wifi_shepard/scanner.py:139-164 | every flagged MAC that is present and not allowlisted is handled, in the order flagged, and no other, by its last report and with its first loudest standing |
| Scanner.PersistedAreTheLoudest | src/wifi_shepard/scanner.py:177-183 | at most twenty rows, loudest first, each at least half its threshold, and no contender left out is louder than a row kept |
| Pipeline.DetectionPipeline.constructor | src/wifi_shepard/pipeline.py:72-103 | a new pipeline has empty windows, maps and timers and the configured knobs |
| Pipeline.BuiltAgreesAndIsEmpty | src/wifi_shepard/pipeline.py:72-103 | a new pipeline's cached knobs agree with the configuration, and it remembers no sample, kick, call or notice |
| Pipeline.DetectionPipeline.UpdateConfig | src/wifi_shepard/pipeline.py:40-69 | each scorer is rebuilt exactly when its own window size changes; the rest is retuned in place |
| Daemon.Daemon.WatchTick | src/wifi_shepard/main.py:257-281 | a tick reloads exactly when a readable file has a new digest, and a broken file changes no pipeline |
| Daemon.Daemon.ReloadConfig | src/wifi_shepard/main.py:229-255 | a valid file reaches every pipeline; an invalid one keeps the last good configuration |
| Daemon.ConfigIsLastValidContent | src/wifi_shepard/main.py:216-281 | in every run of ticks and scans, from newly built pipelines, the configuration is the parse of the last valid content read, and every pipeline agrees with it |
| Daemon.ReloadsOncePerEdit | src/wifi_shepard/main.py:272-281 | a reload is attempted if and only if the content differs from the last one read, so a broken edit is tried once |
| Reboot.RebootCooldown.CanReboot | src/wifi_shepard/reboot/cooldown.py:24-38 | gap first, then the pruned daily cap, with reason and retry-after |
| Reboot.RebootCooldown.RecordReboot | src/wifi_shepard/reboot/cooldown.py:40-45 | remembers the time as the last reboot, and appends it to the device's window while the cap is on |
| Reboot.RebootScheduler.Attempt | src/wifi_shepard/reboot/scheduler.py:79-113 | new state and whether it raised, for every gate and failure; a reboot that went out is remembered even when its row fails |
| Reboot.RebootScheduler.RunDue | src/wifi_shepard/reboot/scheduler.py:66-77 | the sweep goes on past every device's failure |
| RebootRuns.EligibleIff | src/wifi_shepard/reboot/eligibility.py:19-26 | a device is eligible if and only if reboots are enabled, some opt-in entry has its canonical form and no allowlist entry does |
| RebootRuns.CooldownAllowsIff | src/wifi_shepard/reboot/cooldown.py:24-38 | the cooldown allows a reboot if and only if the gap is off, the device was never rebooted or it has passed, and the cap is off or fewer than its number are left of the day; the retry-after is when the gap passes, or when the oldest reboot left is a day old |
| RebootRuns.AttemptFiresIff | src/wifi_shepard/reboot/scheduler.py:79-113 | an attempt reboots the device if and only if it is eligible, this is not a dry run, gap and day allow, the target resolves and the reboot call returns |
| RebootRuns.AttemptLeavesItsRow | src/wifi_shepard/reboot/scheduler.py:84-113 | a preview and a reboot leave their own kind of row when the insert returns, and nothing else leaves one |
| RebootRuns.AttemptRaisesIff | src/wifi_shepard/reboot/scheduler.py:79-113 | an attempt raises if and only if a call it gets to fails |
| RebootRuns.FiresOnHistoryIff | src/wifi_shepard/reboot/scheduler.py:66-113 | in every run with the daily cap on, the j-th attempt of a sweep reboots its device if and only if it is eligible and not a dry run, its newest reboot is a gap ago, fewer than the cap's number lie in the day that ends now, and resolver and reboot call come through |
| RebootRuns.EveryRebootWasAllowed | src/wifi_shepard/reboot/scheduler.py:54-113 | in every run each reboot went out in a due sweep under a configuration that enables reboots, opts the device in, does not allowlist it and is not a dry run, held to that configuration's gap |
| RebootRuns.EveryRebootRowWasAllowed | src/wifi_shepard/reboot/scheduler.py:54-113 | so did the attempt behind each audit row, previews included, and the row says which it was |
| Reboot.RebootsKeepTheirGap | src/wifi_shepard/reboot/cooldown.py:24-45 | under any reloads, reboots of one MAC are at least the per-device gap then in force apart |
| Reboot.EveryDayHoldsTheRebootCap | src/wifi_shepard/reboot/cooldown.py:24-59 | with the cap on, every closed 24-hour window holds at most the cap's number of reboots of a MAC as spelled in the eligible list |
| Reboot.DueTickAttemptsEveryone | src/wifi_shepard/reboot/scheduler.py:66-77 | a due tick attempts every listed device in order, whichever raise, and another tick does nothing |
| Reboot.OneSweepPerDate | src/wifi_shepard/reboot/scheduler.py:54-69 | with dates that do not run backwards there is at most one sweep per date |
| Reboot.DateRunningBackSweepsAgain | src/wifi_shepard/reboot/scheduler.py:62-69 | a date that runs backwards is swept again, and every listed device attempted twice |
| Reboot.SweepsStayDistinctIff | src/wifi_shepard/reboot/scheduler.py:54-69 | from distinct sweeps a tick keeps them distinct if and only if it is not due on a date already swept |
| Reboot.RunSweepsDistinctIff | src/wifi_shepard/reboot/scheduler.py:54-69 | over a whole run the swept dates are distinct if and only if no due tick found its date already swept |
| DeviceConfig.DeleteMatches | src/wifi_shepard_ui/device_config.py:131-134 | deleting from the last index down removes exactly the MAC's entries and keeps the others in order |
| DeviceConfig.ApplyEdits | src/wifi_shepard_ui/device_config.py:191-199 | the leaf loop computes the edited row, whether it changed and whether a leaf was cleared |
| DeviceConfig.MembershipLens | src/wifi_shepard_ui/device_config.py:109-134 | reading after a toggle gives the toggle, a second write changes nothing, a change is reported exactly when there is one, other entries and other paths keep their values |
| DeviceConfig.MembershipRefusedIff | src/wifi_shepard_ui/device_config.py:112-116 | a toggle is refused if and only if something that is neither a null nor a list stands at the path |
| DeviceConfig.ScalarParentIsReplaced | src/wifi_shepard_ui/device_config.py:80-87 | a scalar where the parent block should be is replaced by a block, and the operator's value is gone |
| DeviceConfig.ToggleOverwritesIff | src/wifi_shepard_ui/device_config.py:80-134 | a toggle that changes the document overwrites a scalar or list elsewhere, or a null, if and only if a null stands at the list or anything but a mapping on the way to it |
| DeviceConfig.RowEditOverwritesIff | src/wifi_shepard_ui/device_config.py:80-206 | and so for a row edit |
| DeviceConfig.EditRowSetsLeaves | src/wifi_shepard_ui/device_config.py:191-199 | every leaf of the edited row is what the payload asks of it, and the old value where it asks nothing |
| DeviceConfig.ObjectRowLens | src/wifi_shepard_ui/device_config.py:137-206 | with at most one row per MAC: read-back, idempotence, other rows and other paths untouched |
| DeviceConfig.ReadBackIff | src/wifi_shepard_ui/device_config.py:171-206 | for any list, read-back holds if and only if the edit does not drop the MAC's first row while a second row still says something |
| DeviceConfig.EditTwiceIff | src/wifi_shepard_ui/device_config.py:171-206 | for any list, a second application changes nothing if and only if the first does not drop a row while a second row has a leaf to clear |
| DeviceConfig.DuplicateRowsBreakReadback | src/wifi_shepard_ui/device_config.py:171-206 | with two rows for one MAC, clearing a leaf can leave the other row's value to be read |
| DeviceSettings.ConfigFile.Apply | src/wifi_shepard_ui/device_config.py:244-289 | the file is rewritten exactly when every edit applies, one of them changes something and the outcome is valid, and is otherwise left as it was |
| DeviceSettings.EachEditLandsAlone | src/wifi_shepard_ui/device_config.py:262-268 | after the whole payload each setting is what its own edit makes of the original document |
| DeviceSettings.EverySettingLands | src/wifi_shepard_ui/settings_schema.py:249-279 | after an accepted payload the allowlist, inactivity and reboot toggles read as given at allowlist, detection.inactivity.macs and reboot.eligible, the leaves of the two rows at overrides and reboot.overrides, over the same other entries; a setting left out leaves its node alone, and whatever else the file held is still there |
| DeviceSettings.PayloadRefusedIff | src/wifi_shepard_ui/device_config.py:109-170 | a payload is refused if and only if a setting it gives has something other than a list or a null at its place, or a row names its identity, a leaf its section does not have, or a value that does not coerce |
| DeviceSettings.PayloadTwice | src/wifi_shepard_ui/device_config.py:244-273 | applying the same payload twice changes nothing the second time |
| DeviceSettings.ChangedIffDifferent | src/wifi_shepard_ui/device_config.py:262-273 | a change is reported, and the file written, exactly when the document comes out different |
| DeviceSettings.CardReadsThePayload | src/wifi_shepard_ui/device_config.py:209-241 | after an accepted payload the device card reads every toggle and leaf as given, and every other MAC's entries and rows keep their values and order |
| Document.ReadBack | src/wifi_shepard_ui/device_config.py:70-87 | what is written at a path is what is read there, whatever was on the way |
| Document.OtherPathsStay | src/wifi_shepard_ui/device_config.py:70-87 | writing at a path leaves every diverging path's node alone |
| Config.NormalizeMacIsIdempotent | src/wifi_shepard/reboot/__init__.py:11-13 | canonical MACs are fixed points, so canonical comparison is well defined |
| Config.NormalizedIsLowerCore | src/wifi_shepard/reboot/__init__.py:11-13 | the canonical form is the text between the outer blanks, letter by letter in lower case |

## Left out

- A reload between the await points of one `handle`: each handle is one step.
- Optional collaborators: the pipeline always builds a backoff manager and a limiter, so the actor has both; only the notifier may be absent.
- Floating point: times and the retry percentage are exact reals; the percentage rounded for display is not modelled.
- Configuration parsing and validation: the loader is a parameter that returns a configuration or nothing; non-negative durations are a type.
- Time zones: quiet hours take the local time of day, the scheduler a date and a minute.
- Network and storage clients, SQL engines, migrations, log lines and UI pages: a wire call or insert succeeds or raises, a DNS poll is any sequence of queries or a failure.
- `Scanner.run_once` as one object: its order of checks and handles is `ScanRuns`, its DNS half `Scanner`; sample, AP and DNS health rows are not modelled.
- The reload by SIGHUP, which re-reads the file without recording its digest, and a file edited between the digest and the parse of one tick.
- SHA-256: a digest without collisions. uuid4: where a theorem needs it, attempt groups are assumed not drawn before.
- Dictionary order in the DNS detector: MACs and domains are visited in some order, the statements hold for every one.
- Strings: stripping and lower-casing are ASCII.
- The configuration document is edited as a value: object identity, YAML comments, quoting and Python's equality of numbers and booleans are not captured. Payload values arrive coerced.
- WindowRuns.EveryWindowHoldsTheApCap: bounds windows up to the smallest one yet in force; after a reload that grows the window the code under-counts the longer one (WindowRuns.ReloadIsSafeIffNotGrown, RateLimit.GrownWindowUnderCounts).
- AdmissionRuns.HandleCallsIff: needs reloads that do not grow the per-AP window, for the same reason; RateLimit.GateOpensIff says what the gate does whatever the deque holds.
- RebootRuns.FiresOnHistoryIff: needs the daily cap to stay on, because the day is not kept while it is off; RebootRuns.AttemptFiresIff does without.
- HourRuns.EveryWindowHoldsTheCalls: needs inserts to succeed, because a fallback whose insert fails is offered again (WireRuns.FallbackRepeatsIffInsertFailed, FallbackRuns.FallbacksAreUnbounded).
- WireRuns.QuarantineBoundsCalls: leaves a MAC's own unrecorded fallbacks uncounted, because nothing bounds them (FallbackRuns.FallbacksAreUnbounded).
- LedgerRuns.LadderBoundsEveryWindow: needs a non-decreasing ladder, which the loader does not require.
- DeviceConfig.ObjectRowLens: needs at most one row of the MAC; for any number of rows see DeviceConfig.ReadBackIff and DeviceConfig.EditTwiceIff.
- PairingRuns.RoamClearsItsOwnEntry: needs inserts to succeed, because it allows any order of steps, in which a BTM whose insert fails breaks the match (PairingRuns.FreshCallBreaksMatchIff); ScanRuns.RoamClearsItsOwnEntry does without.
