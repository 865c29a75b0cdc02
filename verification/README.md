# Rustify, verified

Rustify deploys applications, databases and one-click services to remote servers over SSH.
This project models the parts of it whose correctness is hardest to see from one function
at a time, and proves what they promise: the job queue protocol, the deployment run with
its zero-downtime rolling update, secret redaction, the resolver of service variables, the
text that must survive a shell, backup retention, the schedule matcher, the agreement
between the browser's subscriptions and the server's, and the regeneration of proxy flags.

`dafny verify dfyconfig.toml` checks everything.

| file | models |
|---|---|
| `JobQueue.dfy` | workers on one `jobs` table: claim, heartbeat, stale locks, retries (`crates/rustify-jobs/src/queue.rs`) |
| `DeployEngine.dfy`, `RollingUpdate.dfy`, `ZeroDowntime.dfy`, `RollingOutcome.dfy`, `HealthGate.dfy`, `DeployRun.dfy`, `RunOutcome.dfy` | a deployment run and its rolling update (`crates/rustify-deploy/src/engine.rs`, `rolling.rs`, `crates/rustify-core/src/deployment.rs`) |
| `Redact.dfy`, `RedactResidue.dfy`, `RedactComplete.dfy` | redaction of secrets in log lines (`crates/rustify-core/src/redact.rs`) |
| `ServiceRefs.dfy`, `ServiceEnv.dfy`, `ServiceValues.dfy` | `SERVICE_*` variables: finding, generating and storing them (`crates/rustify-docker/src/service_compose.rs`, `crates/rustify-core/src/service_vars.rs`) |
| `EnvFile.dfy` | build and runtime environment files (`crates/rustify-deploy/src/envfile.rs`) |
| `ShellCommand.dfy`, `ShellPaths.dfy` | quoting, unquoted paths and the here-document of the `ssh` command (`crates/rustify-ssh/src/command.rs`) |
| `Retention.dfy` | which backups are deleted (`crates/rustify-core/src/retention.rs`) |
| `Cron.dfy` | the hand-written schedule matcher (`crates/rustify-deploy/src/backup.rs`) |
| `WsAgreement.dfy` | the reconnecting client and the server's channel set (`web/src/api/ws.ts`, `crates/rustify-server/src/ws.rs`) |
| `ProxyFlags.dfy` | generating and extracting Traefik flags (`crates/rustify-proxy/src/config.rs`) |
| `Shell.dfy` | a POSIX shell as a reader of words, here-documents and simple commands |
| `Text.dfy`, `Sorting.dfy`, `Ordering.dfy` | strings as sequences of Unicode scalar values with the library operations used on them, stable sorting, ordered maps |

Most operations appear twice: as a function, about which the theorems are proved, and as a
method in the form of the original (a loop, or a class whose methods update its fields),
which is proved to compute that function.

## How the outside world enters

- **Time, databases, servers.** The queue is a state machine over its steps, interleaved in
  any order; a step says whether the database stored its statement. `Config.latency` bounds
  how late a heartbeat takes effect, and likewise the final statement of a run, which starts
  within one period of the last heartbeat; the exclusion theorem says exactly which bounds are
  good enough. Worker ids are taken to be distinct, as they are within one host.
- **Commands.** A deployment run is a function of two answer streams: what happens outside
  before each database query (the shutdown token, a status move by another party, a failing
  query), and how each dispatched command goes (cancellation polls while it runs, a broken
  connection, exit code, output, partial effect). The theorems hold for every pair of streams.
  Three facts about Docker are built in: label filters list only matching containers,
  inspecting an absent container does not print `healthy`, and `up` that exits with 0 has
  created its container. Orphans are the other containers of the same Compose project.
- **Random values and signatures** are answers of an oracle about which nothing is assumed.
- **Shells.** `Shell` reads text as the POSIX.1-2017 Shell Command Language says (sections
  2.2, 2.3 and 2.7.4): blanks, operators, comments, the three ways of quoting, and
  here-documents with a quoted or unquoted delimiter. How far an unquoted expansion or pattern
  extends and what it becomes (section 2.6) is up to a machine that may answer anything; the
  theorems hold for every machine. What the code prints is proved to be read back.

## Where the code and its documentation differ

The model follows the code. In each case the exact condition for the documented promise is
a theorem.

- `queue.rs:85` promises renewal at half the stale timeout. The 50 ms floor of line 223 makes
  the period longer than the timeout itself below 50 ms, and then two workers can run one job
  (`JobQueue.ExclusiveIffTimely`, `JobQueue.TimelyWhenPunctual`).
- `rolling.rs:13-16` says that anything but a healthy answer removes the new container. It
  goes exactly if the cancellation check before its removal passes and the removal works
  (`RollingOutcome.FailedGateExact`). A cancellation at the gate makes that check fail
  (`RollingOutcome.CancelledGateKeepsBoth`, `RollingOutcome.CancelledGateExists`).
- `engine.rs:1020-1021` keeps previews and production apart by a label filter. On the
  stop-then-start path `--remove-orphans` removes the containers of the other pull requests
  all the same, because they share a Compose project (`RollingOutcome.RecreateOutcome`,
  `RollingOutcome.RecreateRemovesOthers`).
- A preview has a fixed container name (`engine.rs:327`), so its running container is
  replaced before the gate (`ZeroDowntime.FreshNameNeeded`).
- A run whose last status statement loses to a cancellation still marks the application as
  running (`DeployRun.RunningIffSuccessful`, `DeployRun.CancelledYetRunning`).
- `redact.rs:7-8` says that longest-first order never leaks a part of overlapping secrets. It
  does for some secrets that overlap partially (`Redact.PartialOverlapLeavesResidue`).
  Redaction is complete for every content exactly if it is for the finitely many texts glued
  together from two overlapping secrets (`RedactComplete.CompleteIffGluedClean`); without
  overlaps there are none, so secrets that merely contain each other are safe. Apart from
  this, a secret that can overlap the marker itself can survive whole
  (`Redact.SafeIffNotTouching`).
- `command.rs:123` strips the delimiter so that the here-document cannot end early. One pass
  can put a new delimiter together (`ShellCommand.StrippingSplicesDelimiter`).
- `retention.rs:77` and `retention.rs:86` keep the execution at which the size cap is crossed
  and delete the strictly older ones. If newer executions share its timestamp it is deleted
  (`Retention.CrossingKeptIff`, `Retention.TiedCrossingIsDeleted`).
- `envfile.rs:64-66` mentions intended `$VAR` expansion; every `$` is escaped, so none happens.
- `backup.rs` does not reject a step that is not a number: `*/x` matches like `*`
  (`Cron.UnreadableStepIgnored`).
- A service variable that names only a port, such as `SERVICE_FQDN_3000`, makes the slice of
  `service_compose.rs:518` underflow (`ServiceEnv.PanicsIff`).

## Model

| member | source | states |
|---|---|---|
| JobQueue.ExclusiveIffTimely | crates/rustify-jobs/src/queue.rs:182-243 | In every interleaving, no two workers run the same job and the row is locked by the worker that runs it, if and only if a heartbeat that is as late as it may be still comes within the stale timeout |
| JobQueue.TimelyWhenPunctual | crates/rustify-jobs/src/queue.rs:221-226 | For punctual heartbeats the condition is that the timeout is at least the 50 ms floor |
| JobQueue.PeriodExact | crates/rustify-jobs/src/queue.rs:221-226 | The heartbeat period is half the timeout, but at least 50 ms, and heartbeats are timely exactly if that and the latency fit the timeout |
| JobQueue.RunningNotClaimable | crates/rustify-jobs/src/queue.rs:182-202 | The lock of a running job is never old enough for the claim query |
| JobQueue.LateHeartbeatBreaksExclusion | crates/rustify-jobs/src/queue.rs:221-243 | Otherwise a reachable state has two workers on one job |
| JobQueue.InvStep | crates/rustify-jobs/src/queue.rs:182-281 | Every step, timely or not, keeps attempts within the maximum, snapshots below it, and explains every missing row by a successful run |
| JobQueue.InvTimelyStep | crates/rustify-jobs/src/queue.rs:182-281 | With timely heartbeats every step also keeps exclusion, current snapshots, exact failure counts, one success per job and the spacing of retries |
| JobQueue.AlwaysBounded | crates/rustify-jobs/src/queue.rs:182-281 | In every run, even without exclusion, attempts stay within the maximum, no exhausted job is started, and a row leaves the table only after a success |
| JobQueue.AttemptsCountFailuresIffTimely | crates/rustify-jobs/src/queue.rs:255-281 | `attempts`, written from the claim-time snapshot, is the number of failed runs in all runs exactly if heartbeats are timely |
| JobQueue.SucceedsOnce | crates/rustify-jobs/src/queue.rs:245-254 | A job succeeds at most once, and its row is gone exactly then |
| JobQueue.LateHeartbeatRevivesExhausted | crates/rustify-jobs/src/queue.rs:255-280 | A late failure statement puts a dropped job back below the maximum |
| JobQueue.ExhaustedFinalIffTimely | crates/rustify-jobs/src/queue.rs:255-280 | A job dropped after its last attempt stays unchanged for ever, in all runs exactly if heartbeats are timely |
| JobQueue.CompletionDecreasesRemaining | crates/rustify-jobs/src/queue.rs:245-281 | Each recorded completion lowers the sum of remaining attempts, enqueueing adds three, nothing else changes it |
| JobQueue.CompletionsBounded | crates/rustify-jobs/src/queue.rs:245-281 | Completed runs and remaining attempts together are at most three per job |
| JobQueue.RetriesWaitForBackoff | crates/rustify-jobs/src/queue.rs:255-276 | No job runs or can be claimed before the backoffs of all its failures have passed |
| JobQueue.BackoffSums | crates/rustify-jobs/src/queue.rs:131-134 | Those are the base after one failure and three times the base after two |
| JobQueue.FailureReschedules | crates/rustify-jobs/src/queue.rs:255-276 | A recorded failure makes the job due one base per attempt later, unlocked and with its error, and it can be claimed from that instant on exactly if fewer than three attempts have failed |
| JobQueue.LongestBackoff | crates/rustify-jobs/src/queue.rs:131-134 | Where the product exceeds the longest duration, that one is the delay |
| JobQueue.NewJobDue | crates/rustify-jobs/src/queue.rs:92-108 | A new job can be claimed from its requested time on and not before, at once if it has none |
| JobQueue.ClaimTakes | crates/rustify-jobs/src/queue.rs:182-202 | An idle worker can claim exactly the due rows below three attempts whose lock is free or older than the timeout, that no other transaction holds, and none that is due later than another such; the claim locks the row and counts nothing |
| JobQueue.TurnComes | crates/rustify-jobs/src/queue.rs:182-202 | A single worker that claims and finishes one due job after the other, always the earliest, gets to every due job |
| JobQueue.AbandonedJobRecovered | crates/rustify-jobs/src/queue.rs:179-202 | From any state without live workers, any job with attempts left can be taken over by ordinary claims, with no other transaction in the way |
| JobQueue.LockChangesHands | crates/rustify-jobs/src/queue.rs:182-281 | A row changes only by a claim of a free or stale lock, by its own holder's heartbeat, or by the end of a run of it |
| JobQueue.JobTable.Enqueue | crates/rustify-jobs/src/queue.rs:92-108 | Adds one unlocked row with no attempts, due at the given time or now |
| JobQueue.JobTable.Claim | crates/rustify-jobs/src/queue.rs:182-202 | Locks a claimable row with the earliest due time among those not skipped and returns its attempts; none only if there is none |
| JobQueue.JobTable.Heartbeat | crates/rustify-jobs/src/queue.rs:231-241 | Renews the lock only if this worker still holds it |
| JobQueue.BeatsRenewOnly | crates/rustify-jobs/src/queue.rs:228-243 | However many heartbeats an execution sends, they change at most the lock time of its own row, to the last stored one; a row another worker has taken over stays as it is |
| JobQueue.JobTable.Execute | crates/rustify-jobs/src/queue.rs:208-282 | The heartbeat loop and the final statement, each stored or not, have exactly the effect of the statements |
| JobQueue.JobTable.Finish | crates/rustify-jobs/src/queue.rs:245-281 | Deletes the row, or records the failure from the snapshot, unlocks it and postpones it by one base per attempt |
| Deployment.TerminalIsLast | crates/rustify-core/src/deployment.rs:15-29 | In a history of legal moves a terminal status is the last entry, and there are at most two moves |
| Deployment.TransitionsExact | crates/rustify-core/src/deployment.rs:15-29 | A queued deployment starts, one in progress finishes or fails, either is cancelled, and nothing else moves |
| DeployEngine.Move | crates/rustify-core/src/deployment.rs:20-29 | A legal move keeps the history legal and its own moves equal to the broadcast ones |
| DeployEngine.SetStatus | crates/rustify-deploy/src/engine.rs:1467-1479 | Answers true exactly when this call moved the status, and then has broadcast that move; otherwise nothing is broadcast; asked for a terminal status it leaves one unless the query fails |
| DeployEngine.CheckCancel | crates/rustify-deploy/src/engine.rs:1388-1398 | Never passes once a cancellation is there, and reports one only then; cancellation is permanent |
| DeployEngine.CheckCancelExact | crates/rustify-deploy/src/engine.rs:1388-1398 | The shutdown token is answered before a failing query, and that before a cancelled row |
| DeployEngine.Polls | crates/rustify-deploy/src/engine.rs:1425-1431 | The checks while a command runs dispatch nothing and report a cancellation only if there is one |
| DeployEngine.ExecStep | crates/rustify-deploy/src/engine.rs:1400-1461 | Dispatches exactly this one command with its effect if the check before it passes, and nothing otherwise, in particular nothing once cancelling; success means that it ran and, unless failure is allowed, exited with 0 |
| RollingUpdate.AttemptExact | crates/rustify-deploy/src/rolling.rs:141-149 | One health attempt only inspects, and reports healthy only from the output of that inspection |
| RollingUpdate.AttemptsEnd | crates/rustify-deploy/src/rolling.rs:140-165 | The retry loop succeeds only after a healthy inspection |
| RollingOutcome.EligibleExact | crates/rustify-deploy/src/rolling.rs:30-46 | Alongside is possible exactly if nothing but blanks is mapped and `--ip` occurs nowhere in the options |
| RollingOutcome.PathTaken | crates/rustify-deploy/src/rolling.rs:68-113 | Whatever happens, orphans are removed at the start exactly on the path for mapped ports or a fixed address |
| RollingUpdate.HealthCheck | crates/rustify-deploy/src/rolling.rs:120-165 | The gate leaves the containers alone and opens only after a healthy inspection or with health checking off |
| HealthGate.HealthShown | crates/rustify-deploy/src/rolling.rs:54-63 | An inspection says healthy or unhealthy exactly if it prints that word, with blanks and within them quotes around it |
| HealthGate.GateExact | crates/rustify-deploy/src/rolling.rs:120-165 | Where nothing disturbs it, the gate opens if and only if health checking is off or the first decisive inspection within the retries, at least one, shows `healthy`; otherwise it answers unhealthy |
| HealthGate.CalmUpdate | crates/rustify-deploy/src/rolling.rs:91-111 | A rolling update that nothing disturbs replaces the old containers if the gate opens, takes the new one back if it does not, and fails with what a failing start has created |
| DeployRun.Claim | crates/rustify-deploy/src/engine.rs:399-413 | Dispatches nothing, and says claimed exactly if the deployment is in progress afterwards |
| DeployRun.ClaimExact | crates/rustify-deploy/src/engine.rs:399-413 | The claim succeeds if it moves the deployment or finds it in progress, and fails if a query does |
| DeployRun.InternalExact | crates/rustify-deploy/src/engine.rs:417-493 | Work of the engine itself fails exactly if its query does, and then nothing after it is done |
| RollingUpdate.StopOthersSpares | crates/rustify-deploy/src/engine.rs:1014-1048 | At no moment does stopping the others remove a container of another application, pull request or user, or the excepted one |
| RollingUpdate.StopOthersExact | crates/rustify-deploy/src/engine.rs:1014-1048 | What is left is exactly the spared containers and those that the listing or the removal missed |
| RollingOutcome.StopOthersOutcome | crates/rustify-deploy/src/engine.rs:1014-1048 | Whatever stopping the others answers, all containers are left, or exactly the spared and the missed ones if the listing works and the check before the removal passes |
| ZeroDowntime.ReplaceServes | crates/rustify-deploy/src/rolling.rs:91-111 | With a fresh name, after every command either all containers of before are there, or the new one past its gate and everything not to be stopped, whatever fails or is cancelled |
| DeployRun.RunServes | crates/rustify-deploy/src/engine.rs:115-166 | The same from the first to the last command of a whole run |
| RunOutcome.RunLeaves | crates/rustify-deploy/src/engine.rs:115-166 | A whole run leaves the containers as they were unless it gets to the rolling update, and then what that leaves from there |
| RunOutcome.SuccessfulRunRenews | crates/rustify-deploy/src/engine.rs:115-166 | With complete listings and removals, a successful whole run leaves exactly the container of its own start, past its gate, and the untouchable ones |
| RunOutcome.CalmSteps | crates/rustify-deploy/src/engine.rs:417-493 | Where nothing disturbs them, the steps succeed if and only if every command that may not fail exits with 0 |
| RunOutcome.CalmRun | crates/rustify-deploy/src/engine.rs:115-166 | A whole run that nothing disturbs finishes with the new container in place of the old ones if and only if its steps and the start succeed and the gate opens, and otherwise fails with the old ones, and what a failing start has created |
| ZeroDowntime.FreshNameNeeded | crates/rustify-deploy/src/rolling.rs:91-98 | With health checking on, that promise holds if and only if no container has the new name already |
| RollingOutcome.OthersUntouched | crates/rustify-deploy/src/rolling.rs:91-111 | However it ends, a rolling update adds at most the new container and changes no container of another application, pull request or user |
| RollingOutcome.OthersAtEveryMoment | crates/rustify-deploy/src/engine.rs:1014-1048 | At every moment of a rolling update a container with another application, another pull request or no managed label is there as it was |
| RollingOutcome.SuccessIsGated | crates/rustify-deploy/src/rolling.rs:98-105 | Success means that the new container is there and passed the gate, and that of the old ones exactly the missed ones are left |
| RollingOutcome.SuccessLeavesTheNew | crates/rustify-deploy/src/rolling.rs:98-105 | With complete listings and removals exactly the new container and the untouchable ones are left |
| RollingOutcome.OwnOnesGone | crates/rustify-deploy/src/engine.rs:1014-1048 | After a success with complete listings and removals no other named managed container of the same application and pull request is left |
| RollingOutcome.GiveUpOutcome | crates/rustify-deploy/src/rolling.rs:106-110 | After a failed gate the new container goes if and only if the cancellation check before its removal passes and the removal does not miss it |
| RollingOutcome.FailedGateExact | crates/rustify-deploy/src/rolling.rs:106-110 | However the gate fails, the update ends with exactly the old containers, or these and the new one, by the same condition |
| RollingOutcome.RemovalIsLogged | crates/rustify-deploy/src/engine.rs:1050-1054 | With complete removals the new container is gone exactly if its removal is the last command dispatched |
| RollingOutcome.UnhealthyKeepsTheOld | crates/rustify-deploy/src/rolling.rs:106-110 | An unhealthy update leaves the old containers, and the new one exactly if the check before its removal fails or the removal misses it |
| RollingOutcome.CancelledGateKeepsBoth | crates/rustify-deploy/src/engine.rs:1050-1054 | A cancellation at the gate leaves old and new, and no further command is dispatched |
| RollingOutcome.CancelledGateExists | crates/rustify-deploy/src/rolling.rs:136-142 | For any deployment with health checking on, a concrete run is cancelled at its gate and leaves both |
| RollingOutcome.RecreateOutcome | crates/rustify-deploy/src/rolling.rs:78-90 | Stop-then-start leaves exactly the new container and the spared ones outside the Compose project, so other pull requests' containers go |
| RollingOutcome.RecreateRemovesOthers | crates/rustify-deploy/src/rolling.rs:78-90 | A concrete run of stop-then-start in which nothing fails removes another pull request's container |
| RollingOutcome.ReplaceOutcome | crates/rustify-deploy/src/rolling.rs:91-111 | The complete case split of what starting alongside leaves: nothing new, old and new, or the new one and what stopping the others leaves, decided by the checks, the start, the gate and the listing |
| RollingOutcome.RecreateLeaves | crates/rustify-deploy/src/rolling.rs:78-90 | The same for stop-then-start |
| DeployRun.RunKeepsTheProtocol | crates/rustify-deploy/src/engine.rs:115-166 | Over a whole run the status moves along legal edges, a terminal one stays, broadcasts are exactly the own moves; a claimed run removes its helper once, after its last command, and ends terminal unless the last query failed; an unclaimed one dispatches nothing |
| DeployRun.EndingExact | crates/rustify-deploy/src/engine.rs:137-160 | The verdict of a claimed run and the status it broadcasts are success, cancellation or failure as its steps end, if the last query works and its row is still in progress; any other row stays as it is |
| DeployRun.UnclaimedExact | crates/rustify-deploy/src/engine.rs:121-129 | An unclaimed run does nothing further |
| DeployRun.NothingAfterCancel | crates/rustify-deploy/src/engine.rs:1400-1409 | Once a cancellation is there, no step of the run dispatches a command or changes a container |
| DeployRun.RunningIffSuccessful | crates/rustify-deploy/src/engine.rs:143-150 | A run marks the application as running if and only if its steps and the last query succeed, and the deployment then ends finished if and only if its row is in progress, or finished by another party, when the last statement runs |
| DeployRun.CancelledYetRunning | crates/rustify-deploy/src/engine.rs:143-150 | A concrete run ends cancelled with its application marked as running |
| DeployRun.Engine.PollCancel | crates/rustify-deploy/src/engine.rs:1390-1398 | Computes `CheckCancel` |
| DeployRun.Engine.TrySetStatus | crates/rustify-deploy/src/engine.rs:1469-1479 | Computes `SetStatus` |
| DeployRun.Engine.RunCommand | crates/rustify-deploy/src/engine.rs:1403-1461 | The dispatch with its polling loop computes `ExecStep` |
| DeployRun.Engine.WaitHealthy | crates/rustify-deploy/src/rolling.rs:120-165 | The retry loop computes `HealthCheck` |
| DeployRun.Engine.StopOtherContainers | crates/rustify-deploy/src/engine.rs:1016-1048 | Computes `StopOthers` |
| DeployRun.Engine.RollingUpdate | crates/rustify-deploy/src/rolling.rs:68-113 | Both paths compute `Rolling` |
| DeployRun.Engine.Steps | crates/rustify-deploy/src/engine.rs:417-493 | The steps in order, up to the first failure, compute `RunSteps` |
| DeployRun.Engine.TryClaim | crates/rustify-deploy/src/engine.rs:399-413 | Computes `Claim`, including the pre-claimed case |
| DeployRun.Engine.RunToTheEnd | crates/rustify-deploy/src/engine.rs:115-166 | The whole run computes `RunDeployment` |
| Redact.PassesExact | crates/rustify-core/src/redact.rs:15-19 | Filter, sort and dedup leave each non-empty secret once, longest first |
| Redact.PassesInOrder | crates/rustify-core/src/redact.rs:15-19 | Each pass is for a secret with a longer UTF-8 encoding than the next, or one as long that comes first by its characters |
| Redact.ByteLenExact | crates/rustify-core/src/redact.rs:18 | The length of a secret is that of its UTF-8 encoding |
| Redact.DependsOnlyOnTheSet | crates/rustify-core/src/redact.rs:14-25 | The result depends only on the set of non-empty secrets |
| Redact.OccurrenceReflected | crates/rustify-core/src/redact.rs:21-23 | A text that cannot overlap the marker and is in the result of one pass was in its input, and is not what the pass removes |
| Redact.NoSecretSurvives | crates/rustify-core/src/redact.rs:14-25 | No secret that cannot overlap the marker is contained in the redacted text |
| Redact.DisjointNeverTouches | crates/rustify-core/src/redact.rs:10 | In particular one that shares no character with the marker |
| Redact.TouchingSecretSurvives | crates/rustify-core/src/redact.rs:14-25 | For a secret that can overlap the marker there is a content, beside a second secret, that still shows it |
| Redact.SafeIffNotTouching | crates/rustify-core/src/redact.rs:14-25 | A secret, unless it uses every Unicode character, is safe in every company and content if and only if it cannot overlap the marker |
| Redact.RedactIdempotent | crates/rustify-core/src/redact.rs:14-25 | Redacting again changes nothing |
| Redact.LongestSecretOneMarkerEach | crates/rustify-core/src/redact.rs:14-25 | Each leftmost match of a longest secret becomes exactly one marker, and what lies between is redacted separately |
| Redact.PartialOverlapLeavesResidue | crates/rustify-core/src/redact.rs:6-8 | Two secrets that overlap partially leave the end of the second readable |
| Redact.Redact | crates/rustify-core/src/redact.rs:14-25 | The loop computes the function |
| RedactResidue.RunPassesIsSpans | crates/rustify-core/src/redact.rs:21-23 | The passes leave exactly the computed stretches readable, with one marker between each two |
| RedactResidue.RedactedShowsSpans | crates/rustify-core/src/redact.rs:14-25 | The same for the redacted text, if no secret other than the longest can overlap the marker |
| RedactComplete.UnreadableIsMatched | crates/rustify-core/src/redact.rs:21-23 | Every character that is gone lay in a match of some pass |
| RedactComplete.CoveredIsUnreadable | crates/rustify-core/src/redact.rs:21-23 | If nothing stays of the glued texts, no character of an occurrence of a secret stays in any part of any content |
| RedactComplete.CompleteIffGluedClean | crates/rustify-core/src/redact.rs:6-8 | For every set of secrets, no character of any occurrence of any secret stays readable in any content if and only if nothing stays readable of the finitely many texts glued together from two overlapping secrets |
| RedactComplete.RedactedCompleteIff | crates/rustify-core/src/redact.rs:6-25 | The same of the redacted text, if no secret other than the longest can overlap the marker |
| RedactComplete.LaterPassCleans | crates/rustify-core/src/redact.rs:6-8 | An overlap alone does not decide: `aa` overlaps itself, but beside `a` nothing stays |
| RedactComplete.OverlapFreeLeavesNothing | crates/rustify-core/src/redact.rs:6-8 | Without partial overlaps, contained secrets included, no character of any occurrence of any secret stays readable |
| RedactComplete.OverlapLeaks | crates/rustify-core/src/redact.rs:6-8 | Corollary: where no secret contains another, any partial overlap leaks in some content |
| RedactComplete.CompleteIffOverlapFree | crates/rustify-core/src/redact.rs:6-8 | Corollary: where no secret contains another, redaction is complete for every content if and only if no two overlap partially |
| ServiceRefs.ScanServiceRefs | crates/rustify-docker/src/service_compose.rs:192-216 | The scan finds exactly the longest identifiers that start with SERVICE_ after some `$` or `${`, although it jumps over what it has read |
| ServiceRefs.ReferenceUnique | crates/rustify-docker/src/service_compose.rs:197-210 | At one dollar sign there is at most one such name, the one the scan takes |
| ServiceRefs.ReferencedExact | crates/rustify-docker/src/service_compose.rs:192-216 | A name is referenced exactly if the text has it after `$` or `${`, up to the first character that cannot belong to a name |
| ServiceRefs.ItemExact | crates/rustify-docker/src/service_compose.rs:158-164 | A list item is a key with blanks around it and the value after the first equals sign |
| ServiceRefs.DeclarationsInOrder | crates/rustify-docker/src/service_compose.rs:152-180 | Every environment section counts, in order |
| ServiceRefs.CollectDeclaration | crates/rustify-docker/src/service_compose.rs:152-180 | A further declaration counts only if its name is magic and new |
| ServiceRefs.CollectReference | crates/rustify-docker/src/service_compose.rs:182-186 | A reference adds its name without a value only if it is not there |
| ServiceRefs.CollectMagicVars | crates/rustify-docker/src/service_compose.rs:149-189 | The result lists each magic name once in key order, declared ones with the value of their first declaration, others exactly for the references in the text |
| ServiceEnv.Step | crates/rustify-docker/src/service_compose.rs:87-103 | One variable sets exactly its own keys, keeps stored values and leaves everything else |
| ServiceEnv.StoredValuesKept | crates/rustify-docker/src/service_compose.rs:497-506 | A run never changes a stored value, in the environment or in the store |
| ServiceEnv.ResolveSets | crates/rustify-docker/src/service_compose.rs:68-144 | The keys a run sets are exactly those of its variables and the bookkeeping |
| ServiceEnv.SameFqdns | crates/rustify-docker/src/service_compose.rs:220-267 | Which FQDNs are found, and whether the run panics, does not depend on the store or the generator |
| ServiceEnv.SecondRunChangesNothing | crates/rustify-deploy/src/service.rs:110-142 | After upserting the output, a second run with any generator leaves the store as it is and sets the same keys, except the signing key exactly when the template does not name it |
| ServiceEnv.TokenName | crates/rustify-core/src/service_vars.rs:168-194 | The names of Supabase tokens come after the signing key's name in key order |
| ServiceEnv.LoopSigns | crates/rustify-docker/src/service_compose.rs:87-103 | The loop in key order resolves the key before any token, and nothing later touches either |
| ServiceEnv.TokensMatchTheStoredKey | crates/rustify-docker/src/service_compose.rs:271-313 | Every freshly generated token is signed with the value the signing key has in the store after the run |
| ServiceEnv.PairsComeTogether | crates/rustify-docker/src/service_compose.rs:218-267 | After a run every FQDN variable comes with its URL variable and conversely, and the URL is the FQDN with its scheme unless one was stored before |
| ServiceEnv.PairNameCommand | crates/rustify-core/src/service_vars.rs:168-186 | A magic name that starts like a pair is always resolved as one |
| ServiceEnv.TwoPartCommand | crates/rustify-core/src/service_vars.rs:168-194 | Parsing gives back the command of every two-part name |
| ServiceValues.CommandExists | crates/rustify-core/src/service_vars.rs:168-186 | A name has a command exactly if it starts with SERVICE_ and has three or four parts |
| ServiceValues.ThreePartCommand | crates/rustify-core/src/service_vars.rs:168-186 | With four parts the command has two, unless the name starts like an FQDN or a URL |
| ServiceValues.ValueOfRun | crates/rustify-docker/src/service_compose.rs:271-297 | After a run a variable has its stored value or one drawn for it, and is flagged as a secret exactly for the commands that yield one |
| ServiceValues.TokenRoles | crates/rustify-docker/src/service_compose.rs:282-290 | A fresh anon token has the role `anon` and a fresh service token the role `service_role`, both signed with the key in the store after the run |
| ServiceValues.KeyOfRun | crates/rustify-docker/src/service_compose.rs:298-313 | A signing key that the template does not name is drawn once and kept as a secret |
| ServiceValues.SplitWithPort | crates/rustify-docker/src/service_compose.rs:510-523 | A name that ends in an underscore and digits is split there |
| ServiceValues.SplitWithoutPort | crates/rustify-docker/src/service_compose.rs:510-523 | Every other name is kept whole |
| ServiceValues.FqdnOfRun | crates/rustify-docker/src/service_compose.rs:218-267 | After a run every fresh key of a pair has the base with the port and the declared path of the last variable that sets it, the URL with its scheme |
| ServiceValues.RoutesOfRun | crates/rustify-docker/src/service_compose.rs:253-267 | Exactly the services that an FQDN or URL variable names are routed, each as the first such variable says: to the base, with the declared path in its URL and its port |
| ServiceValues.BookkeepingOfRun | crates/rustify-docker/src/service_compose.rs:316-361 | A run sets the identifiers of the stack, and all hosts and URLs joined by commas if there is an FQDN |
| ServiceValues.NamesOfRun | crates/rustify-docker/src/service_compose.rs:338-350 | A run sets the name of each service under its own key |
| ServiceValues.NormalizeExact | crates/rustify-docker/src/service_compose.rs:525-528 | Names are normalized to small letters, with underscores for dashes and dots |
| ServiceEnv.SplitFails | crates/rustify-docker/src/service_compose.rs:510-523 | Splitting off the port underflows exactly for a name of digits only |
| ServiceEnv.UnderflowExact | crates/rustify-docker/src/service_compose.rs:510-523 | The variables for which it does are exactly SERVICE_FQDN_ and SERVICE_URL_ followed by digits only |
| ServiceEnv.PanicsIff | crates/rustify-docker/src/service_compose.rs:87-103 | Resolution panics if and only if the template has such a variable |
| ServiceEnv.ResolveMagic | crates/rustify-docker/src/service_compose.rs:84-103 | The loop computes `ResolveAll` |
| ServiceEnv.ParseServiceEnv | crates/rustify-docker/src/service_compose.rs:68-144 | Collecting, resolving and bookkeeping compute `Resolve` for the collected variables |
| EnvFile.MergeExact | crates/rustify-deploy/src/envfile.rs:40-62 | The merged environment has each key once, in first-seen order, with the value it was given last |
| EnvFile.LayerPrecedence | crates/rustify-deploy/src/envfile.rs:3-9 | User variables win over SERVICE_*, those over RUSTIFY_*, those over the nixpacks plan without its reserved names |
| EnvFile.EnvironmentExact | crates/rustify-deploy/src/envfile.rs:40-62 | A key is in the build environment exactly if the user, SERVICE_* or RUSTIFY_* layer has it or the plan has it without a reserved prefix, with the last value of the highest layer that has it |
| EnvFile.QuotedRoundTrip | crates/rustify-deploy/src/envfile.rs:64-78 | The shell reads a double-quoted value as one word, the value itself, whatever it contains and on every machine |
| EnvFile.BuildEnvRoundTrip | crates/rustify-deploy/src/envfile.rs:80-91 | On every machine the shell reads back exactly the merged environment if and only if every key is a shell name |
| EnvFile.SourcedEnvironment | crates/rustify-deploy/src/envfile.rs:80-91 | After sourcing, every key of a layer has its value of highest precedence |
| EnvFile.OneLineExact | crates/rustify-deploy/src/envfile.rs:98 | A flattened value has a blank for every line break and is otherwise unchanged |
| EnvFile.RuntimeEnvRoundTrip | crates/rustify-deploy/src/envfile.rs:93-105 | Split into lines and at the first equals sign, the runtime file gives each variable with its flattened value if and only if no key contains an equals sign or a newline |
| EnvFile.Upsert | crates/rustify-deploy/src/envfile.rs:30-38 | The search and update compute `Put` |
| EnvFile.PutExact | crates/rustify-deploy/src/envfile.rs:30-38 | `Put` overwrites the value in place or appends the pair, and changes nothing else |
| EnvFile.MergeBuildEnv | crates/rustify-deploy/src/envfile.rs:44-62 | The four loops compute `Merged` |
| EnvFile.BashDoubleQuote | crates/rustify-deploy/src/envfile.rs:67-78 | The loop computes `DoubleQuoted` |
| EnvFile.RenderBuildEnv | crates/rustify-deploy/src/envfile.rs:81-91 | The loop computes `RenderBuild` |
| ShellCommand.QuoteRoundTrip | crates/rustify-ssh/src/command.rs:61-64 | The shell reads any quoted text as one word, the text itself, on every machine |
| ShellCommand.UserAtHostRoundTrip | crates/rustify-ssh/src/command.rs:66-69 | User and host, each quoted, are read as the one word `user@host` |
| ShellCommand.HereDocExact | crates/rustify-ssh/src/command.rs:122-125 | Exactly the lines before the first one that is the delimiter arrive; without one that is the script and a newline |
| ShellCommand.TransportedIffNoDelimiter | crates/rustify-ssh/src/command.rs:122-125 | The script arrives with one newline after it if and only if it does not contain the delimiter |
| ShellCommand.StrippingSplicesDelimiter | crates/rustify-ssh/src/command.rs:123-124 | Removing the delimiter once can put one together, and then nothing of the script arrives |
| ShellCommand.HereDocumentRead | crates/rustify-ssh/src/command.rs:125 | The backslash quotes the printed delimiter, so the shell hands over the document without expanding it |
| ShellCommand.QuotedDelimiterNeeded | crates/rustify-ssh/src/command.rs:125 | Without the backslash exactly the scripts in which nothing is expanded or escaped would arrive as they are on every machine |
| ShellCommand.CommandRoundTrip | crates/rustify-ssh/src/command.rs:100-127 | With paths that read as themselves the local shell reads the whole command as exactly the intended words, listed one by one, whatever user, host and proxy command contain, with what the here-document transports as input |
| ShellPaths.CommandIntendedIff | crates/rustify-ssh/src/command.rs:100-127 | For every key and socket path without expansions and on every machine, the command is read as intended with the script as its input if and only if the paths are free of blanks, newlines, operators and quoting characters, the key path is not empty and is no comment, and the script does not contain the delimiter |
| ShellPaths.IntendedEverywhereIff | crates/rustify-ssh/src/command.rs:100-127 | For every key and socket path at all, the command is read as intended on all machines if and only if, besides, the paths contain no expansion |
| ShellPaths.WordStrays | crates/rustify-ssh/src/command.rs:71-93 | An unquoted text before an option that does not read as itself is read as a word that has lost a character of it or has swallowed the dash of the option |
| ShellCommand.AssembleSshCommand | crates/rustify-ssh/src/command.rs:103-127 | The assembly by appending computes `BuildSshCommand` |
| Retention.NewestFirstExact | crates/rustify-core/src/retention.rs:52-54 | Sorting gives the strict newest-first order of the same executions |
| Retention.DeletesSuffix | crates/rustify-core/src/retention.rs:40-101 | What is deleted is exactly the suffix of the newest-first order from the smallest cut of the active rules, and never empty of survivors |
| Retention.DeletesUnwanted | crates/rustify-core/src/retention.rs:59-101 | An execution is deleted exactly if it is beyond the newest `amount`, more than so many days older than the newest, or, the first one excepted, not newer than the execution at which the bytes after the newest cross the cap |
| Retention.SizeMarksFromCut | crates/rustify-core/src/retention.rs:76-93 | The size rule marks from one past the start of the tie group of the crossing execution |
| Retention.CrossingKeptIff | crates/rustify-core/src/retention.rs:76-93 | The execution at which the cap is crossed is kept by the size rule if and only if no newer one shares its timestamp |
| Retention.TiedCrossingIsDeleted | crates/rustify-core/src/retention.rs:84-91 | A concrete list whose crossing execution is deleted |
| Retention.DayMarksFromCut | crates/rustify-core/src/retention.rs:66-74 | The day rule marks exactly from the first execution older than its cutoff |
| Retention.PanicsIff | crates/rustify-core/src/retention.rs:66-68 | The selection panics if and only if the days of the day rule reach back before the first representable instant from every execution |
| Retention.DaysThatNeverPanic | crates/rustify-core/src/retention.rs:66-68 | For executions since 1970 no number of days up to 96465292 does |
| Retention.AmountMarksFromCut | crates/rustify-core/src/retention.rs:59-64 | The amount rule marks exactly what comes after the newest `amount` |
| Retention.NewestNeverMarked | crates/rustify-core/src/retention.rs:95-100 | No rule marks the newest, so the filter that protects it is redundant |
| Retention.OrderIrrelevant | crates/rustify-core/src/retention.rs:40-101 | The result does not depend on the order of the input |
| Retention.KeptFitsCap | crates/rustify-core/src/retention.rs:76-93 | What is kept, apart from the newest and the last one kept, fits the cap |
| Retention.CutAgain | crates/rustify-core/src/retention.rs:59-93 | The cut of what a cut has kept is all of it |
| Retention.SelectingAgainDeletesNothing | crates/rustify-core/src/retention.rs:40-101 | The same settings delete nothing more from the survivors |
| Retention.MarkBeyondAmount | crates/rustify-core/src/retention.rs:59-64 | The loop marks what the amount rule marks |
| Retention.MarkOlderThanDays | crates/rustify-core/src/retention.rs:66-74 | The loop marks what the day rule marks, and nothing is computed exactly if the cutoff is not representable |
| Retention.MarkPastSize | crates/rustify-core/src/retention.rs:76-93 | The loop marks what the size rule marks, and its 64-bit total never overflows |
| Retention.SelectForDeletion | crates/rustify-core/src/retention.rs:40-101 | The whole selection computes `Selected`, the panic included |
| Cron.ParseDecimal | crates/rustify-deploy/src/backup.rs:624-656 | Parsing gives back every printed number within 32 bits and rejects the others |
| Cron.ParseExact | crates/rustify-deploy/src/backup.rs:624-656 | A number is decimal digits, at least one, after a plus sign or none, within 32 bits |
| Cron.PartMeaning | crates/rustify-deploy/src/backup.rs:624-658 | A printed part matches exactly the values in its denoted set, without a subtraction below zero |
| Cron.FieldMeaning | crates/rustify-deploy/src/backup.rs:610-622 | A printed field matches exactly the union of its parts, Sunday being both 0 and 7 |
| Cron.DueIffDenoted | crates/rustify-deploy/src/backup.rs:583-595 | For every expression within 32 bits and any layout of blanks, the matcher says due exactly if all five components lie in their sets |
| Cron.MacroDueIffDenoted | crates/rustify-deploy/src/backup.rs:597-608 | The same for every macro, with blanks around it |
| Cron.UnreadableStepIgnored | crates/rustify-deploy/src/backup.rs:625-628 | A part with a step that is no 32-bit number matches as if it had none |
| Cron.UnreadableNeverMatches | crates/rustify-deploy/src/backup.rs:624-658 | A part that is neither a star nor a number nor two numbers with a dash matches nothing |
| Cron.FiveFieldsNeeded | crates/rustify-deploy/src/backup.rs:583-595 | An expression is due only if it has five words, and then exactly if each matches its component |
| WsAgreement.SubscriptionsAgree | web/src/api/ws.ts:43-156 | With the socket open, once the frames in flight have arrived, the server's set is the client's channels without the refused ones, and it forwards exactly those |
| WsAgreement.HandleKnown | crates/rustify-server/src/ws.rs:194-219 | A frame changes the accepted and refused channels together as it asks, whatever the answer |
| WsAgreement.QuietMeansExact | crates/rustify-server/src/ws.rs:180-246 | If answers do not change over time, nothing in flight means that the server's set is the allowed part of the client's channels |
| WsAgreement.AgreementStep | web/src/api/ws.ts:43-156 | Every step of client, sockets, timer and server keeps the agreement |
| WsAgreement.ClientInvariants | web/src/api/ws.ts:79-156 | At most one socket can call back, handler sets are never empty, attempts and delays are bounded, and a client with handlers is not forgotten |
| WsAgreement.SubscribeExact | web/src/api/ws.ts:43-56 | A subscription adds its handler and no other, cancels a close by the user, connects if there is no socket, and sends a frame only for a new channel on an open socket |
| WsAgreement.UnsubscribeExact | web/src/api/ws.ts:58-68 | Ending one removes its handler and no other; the channel goes with its last handler, and only then a frame is sent |
| WsAgreement.DelayBounds | web/src/api/ws.ts:147-151 | Delays lie between 500 and 15000 ms |
| WsAgreement.DelayTable | web/src/api/ws.ts:147-151 | The delays are 500, 1000, 2000, 4000, 8000 and then 15000 ms |
| WsAgreement.RetriesTenTimes | web/src/api/ws.ts:107-156 | Since the last open connection the next loss starts a timer with the next delay for ten times and none after that, and a new connection starts over |
| WsAgreement.QuietClients | web/src/api/ws.ts:79-156 | No reconnect is started twice, without handlers or against the close by the user, who drops socket and timer but no handler |
| WsAgreement.AlwaysRestorable | web/src/api/ws.ts:101-156 | From every reachable state in which the client has handlers and has not given up, a lost connection can be restored, with exactly its channels on the server |
| WsAgreement.WsClient.Connect | web/src/api/ws.ts:101-105 | Creates a socket only if there is none and the user has not closed |
| WsAgreement.WsClient.Subscribe | web/src/api/ws.ts:43-56 | Adds the handler, connects, and sends a frame only for a new channel on an open socket |
| WsAgreement.WsClient.Unsubscribe | web/src/api/ws.ts:58-68 | Removes the handler, and the channel with its last handler |
| WsAgreement.WsClient.Close | web/src/api/ws.ts:79-91 | Drops socket and timer |
| WsAgreement.WsClient.OnOpen | web/src/api/ws.ts:107-115 | Subscribes to every channel again |
| WsAgreement.WsClient.ScheduleReconnect | web/src/api/ws.ts:142-156 | Starts at most one timer, with the backoff delay, while attempts are left |
| WsAgreement.WsClient.OnClose | web/src/api/ws.ts:132-135 | Forgets the socket and schedules a reconnect |
| WsAgreement.WsClient.OnTimer | web/src/api/ws.ts:152-155 | Connects again |
| WsAgreement.Connection.Handle | crates/rustify-server/src/ws.rs:194-219 | Changes the channel set as asked, and refuses exactly the unauthorized subscriptions |
| ProxyFlags.DefaultsDistinct | crates/rustify-proxy/src/config.rs:20-44 | The default flags are pairwise different |
| ProxyFlags.SecondDefaultNotMatched | crates/rustify-proxy/src/config.rs:104-108 | No default prefix matches `--ping.entrypoint=http` |
| ProxyFlags.ExtractedDefaults | crates/rustify-proxy/src/config.rs:183-192 | It is the only default flag that extraction takes for a custom one |
| ProxyFlags.AddedExact | crates/rustify-proxy/src/config.rs:109-113 | What is added are exactly the new custom flags, once each, in order of first use |
| ProxyFlags.GeneratedExact | crates/rustify-proxy/src/config.rs:102-113 | A generated list starts with the defaults, has no duplicates and contains every custom flag |
| ProxyFlags.ExtractedExact | crates/rustify-proxy/src/config.rs:183-192 | Extraction keeps exactly the flags without a default prefix |
| ProxyFlags.RegeneratedFromGenerated | crates/rustify-proxy/src/config.rs:102-113 | Regenerating a generated list drops exactly the added flags that look like defaults |
| ProxyFlags.RegenerationStabilises | crates/rustify-proxy/src/config.rs:167-193 | From any command list one regeneration reaches a fixed point |
| ProxyFlags.RegenerationIdentityIff | crates/rustify-proxy/src/config.rs:167-193 | Regeneration gives back a generated list if and only if no custom flag that is not a default looks like one |
| ProxyFlags.GenerateCommand | crates/rustify-proxy/src/config.rs:102-113 | The loop computes `Generated` |

## Left out

- RedactResidue.RedactedShowsSpans: assumes that no secret other than the longest can overlap the marker; for the others `Redact.SafeIffNotTouching` says that not even whole secrets are safe.
- RedactComplete.CompleteIffOverlapFree: a simpler condition for the case that no secret contains another; `CompleteIffGluedClean` has no such hypothesis, and `LaterPassCleans` shows why the simpler condition needs one.
- ShellPaths.CommandIntendedIff: assumes a plain nonce, which production draws from hexadecimal digits, and paths without `$`, backquote, `*`, `?`, `[` and leading `~`, whose meaning depends on the machine; these are in `IntendedEverywhereIff`.
- ShellPaths.IntendedEverywhereIff: counts every `[` as a pattern, also one that no `]` closes, and every `$` as an expansion, also one before a character for which POSIX leaves the result unspecified.
- ShellCommand.CommandRoundTrip: assumes paths that read as themselves, because the code writes these unquoted; `ShellPaths` says what becomes of all others.
- EnvFile.RuntimeEnvRoundTrip: the reader splits lines and nothing more, as `envfile.rs:11-12` describes the format; the reader of Docker Compose, which treats quotes, `#` and `$` specially, is not part of this model.
- Redact.SafeIffNotTouching: assumes that there is a character the secret does not use.
- Retention.DeletesSuffix: assumes distinct ids, as the database guarantees.
- RollingOutcome.SuccessLeavesTheNew: assumes complete listings and removals; a failing `docker ps` is taken for an empty list by the code, and `SuccessIsGated` says exactly what is left then.
- RunOutcome.CalmRun: assumes complete removals, that no cancellation, failing query, broken connection or move by others comes in between, and a path that replaces alongside; `RunLeaves` and `EndingExact` hold for every run.
- DeployRun.RunKeepsTheProtocol: a failing status statement is taken not to have been stored; a commit whose answer is lost is not modelled.
- JobQueue.AbandonedJobRecovered: shows that recovery is possible, not that the scheduler gets there.
- The polling loop of idle workers, draining on shutdown and the handler registry.
- `next_queuable` and its limits per server and application, the drain of the deployment queue after a run, PR comments and preview status rows.
- What the build steps before the rolling update do: they are any sequence of commands that leave the deploy server's containers alone and of engine work that may fail. The stack of a Docker Compose application, which has no rolling update, is such a step.
- Containers that crash or are changed by others during a run, and the waiting times of the health check.
- Log lines, batches and their order; only the redaction of their content is modelled.
- `rewrite_volumes`, `slug`, container names and labels of a service: one-pass rewrites that would add easy members.
- YAML, JSON and SQL text; the models start from what these libraries return.
- Upper and lower case outside ASCII in service names.
- The cryptography of tokens and the distribution of random values.
- `scp` commands, option lists of other tools, and shell constructs that the code never writes.
- NUL characters in environment values, paths, user, host, proxy command and script, which no shell or command string can hold.
- Extensions of particular shells such as brace expansion, locales in which characters other than space and tab are blanks, splitting the result of an expansion into several words, and redirections other than the here-document.
- The schedule of `rustify-core`, which delegates to a library, and expressions with signs, names or more than 32 bits in a field, beyond the theorem about unreadable steps.
- Listener callbacks and message dispatch of the WebSocket client, and the authorization queries of the server, whose answers are arbitrary.
