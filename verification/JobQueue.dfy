/** The job queue: workers share one `jobs` table, claim rows by locking them, renew the
    lock by heartbeat, treat old locks as abandoned and retry failed jobs with backoff.
    Times and durations are in nanoseconds. */
module JobQueue {
  import opened Text

  type JobId = nat
  type WorkerId = nat

  const MAX_ATTEMPTS: nat := 3
  /** Heartbeats are never scheduled closer together than 50 ms. */
  const HEARTBEAT_FLOOR: nat := 50_000_000
  /** `Duration::MAX`: 2^64 - 1 seconds and 999,999,999 nanoseconds. */
  const DURATION_MAX: nat := 0x1_0000_0000_0000_0000 * 1_000_000_000 - 1

  /** `latency` bounds how late a statement takes effect: a heartbeat after its period, and the
      final statement after the last heartbeat, which comes no later than the next one would. */
  datatype Config = Config(stale: nat, backoffBase: nat, latency: nat)

  datatype Row = Row(runAt: int, lockedAt: Option<int>, lockedBy: Option<WorkerId>,
                     attempts: nat, lastError: Option<string>, createdAt: int)

  function HeartbeatPeriod(cfg: Config): nat {
    if cfg.stale / 2 > HEARTBEAT_FLOOR then cfg.stale / 2 else HEARTBEAT_FLOOR
  }

  /** A heartbeat that is as late as it may be still arrives before the lock is stale. */
  predicate Timely(cfg: Config) {
    HeartbeatPeriod(cfg) + cfg.latency <= cfg.stale
  }

  /** `base * attempts`, at least once the base, saturating. */
  function Backoff(base: nat, attempts: nat): nat {
    var d := base * (if attempts > 1 then attempts else 1);
    if d > DURATION_MAX then DURATION_MAX else d
  }

  // ----- the SQL statements, on the rows ---------------------------------------

  predicate Claimable(row: Row, now: int, stale: nat) {
    row.runAt <= now
    && row.attempts < MAX_ATTEMPTS
    && (row.lockedAt.None? || row.lockedAt.value < now - stale)
  }

  /** `ORDER BY run_at LIMIT 1` among the claimable rows no other transaction has locked. */
  predicate NextToClaim(rows: map<JobId, Row>, id: JobId, now: int, stale: nat, skipped: set<JobId>) {
    id in rows && id !in skipped && Claimable(rows[id], now, stale)
    && forall k :: k in rows && k !in skipped && Claimable(rows[k], now, stale) ==> rows[id].runAt <= rows[k].runAt
  }

  function InsertRow(rows: map<JobId, Row>, id: JobId, runAt: Option<int>, now: int): map<JobId, Row> {
    rows[id := Row(if runAt.Some? then runAt.value else now, None, None, 0, None, now)]
  }

  function LockRow(rows: map<JobId, Row>, id: JobId, w: WorkerId, now: int): map<JobId, Row>
    requires id in rows
  {
    rows[id := rows[id].(lockedAt := Some(now), lockedBy := Some(w))]
  }

  function RelockRow(rows: map<JobId, Row>, id: JobId, w: WorkerId, now: int): map<JobId, Row> {
    if id in rows && rows[id].lockedBy == Some(w) then rows[id := rows[id].(lockedAt := Some(now))] else rows
  }

  function DeleteRow(rows: map<JobId, Row>, id: JobId): map<JobId, Row> {
    rows - {id}
  }

  function FailRow(rows: map<JobId, Row>, id: JobId, attempts: nat, error: string, now: int, backoff: nat): map<JobId, Row> {
    if id in rows
    then rows[id := rows[id].(attempts := attempts, lastError := Some(error), lockedAt := None, lockedBy := None,
                              runAt := now + backoff)]
    else rows
  }

  // ----- the protocol ------------------------------------------------------------

  /** A job in flight: what its worker remembers from the claim, and when it last wrote the lock. */
  datatype Run = Run(job: JobId, attempts: nat, lastBeat: int)

  /** A finished run whose final statement reached the database. */
  datatype Done = Done(job: JobId, ok: bool)

  datatype State = State(rows: map<JobId, Row>, nextId: JobId, now: int, runs: map<WorkerId, Run>, log: seq<Done>)

  /** `stored` is false when the database rejects the statement; the worker only logs that. */
  datatype Step =
    | Enqueue(runAt: Option<int>)
    | Claim(w: WorkerId, id: JobId, skipped: set<JobId>)
    | Heartbeat(w: WorkerId, stored: bool)
    | FinishOk(w: WorkerId, stored: bool)
    | FinishErr(w: WorkerId, error: string, stored: bool)
    | Crash(w: WorkerId)
    | Tick(to: int)

  function Init(start: int): State {
    State(map[], 0, start, map[], [])
  }

  /** Time passes only as far as every live worker's next heartbeat may be delayed. */
  predicate Enabled(cfg: Config, s: State, step: Step) {
    match step
    case Enqueue(_) => true
    case Claim(w, id, skipped) => w !in s.runs && NextToClaim(s.rows, id, s.now, cfg.stale, skipped)
    case Tick(to) =>
      s.now <= to && forall w :: w in s.runs ==> to <= s.runs[w].lastBeat + HeartbeatPeriod(cfg) + cfg.latency
    case _ => step.w in s.runs
  }

  function Apply(cfg: Config, s: State, step: Step): State
    requires Enabled(cfg, s, step)
  {
    match step
    case Enqueue(runAt) => s.(rows := InsertRow(s.rows, s.nextId, runAt, s.now), nextId := s.nextId + 1)
    case Claim(w, id, _) =>
      s.(rows := LockRow(s.rows, id, w, s.now), runs := s.runs[w := Run(id, s.rows[id].attempts, s.now)])
    case Heartbeat(w, stored) =>
      if stored
      then s.(rows := RelockRow(s.rows, s.runs[w].job, w, s.now), runs := s.runs[w := s.runs[w].(lastBeat := s.now)])
      else s
    case FinishOk(w, stored) =>
      var run := s.runs[w];
      var rest := s.(runs := s.runs - {w});
      if stored then rest.(rows := DeleteRow(s.rows, run.job), log := s.log + [Done(run.job, true)]) else rest
    case FinishErr(w, error, stored) =>
      var run := s.runs[w];
      var rest := s.(runs := s.runs - {w});
      var attempts := run.attempts + 1;
      if stored
      then rest.(rows := FailRow(s.rows, run.job, attempts, error, s.now, Backoff(cfg.backoffBase, attempts)),
                 log := s.log + [Done(run.job, false)])
      else rest
    case Crash(w) => s.(runs := s.runs - {w})
    case Tick(to) => s.(now := to)
  }

  predicate Allowed(cfg: Config, s: State, steps: seq<Step>)
    decreases |steps|
  {
    steps == [] || (Enabled(cfg, s, steps[0]) && Allowed(cfg, Apply(cfg, s, steps[0]), steps[1..]))
  }

  function After(cfg: Config, s: State, steps: seq<Step>): State
    requires Allowed(cfg, s, steps)
    decreases |steps|
  {
    if steps == [] then s else After(cfg, Apply(cfg, s, steps[0]), steps[1..])
  }

  ghost predicate Reachable(cfg: Config, s: State) {
    exists start: int, steps: seq<Step> :: Allowed(cfg, Init(start), steps) && After(cfg, Init(start), steps) == s
  }

  // ----- what is claimed of the reachable states -----------------------------------

  predicate Exclusive(s: State) {
    forall v, w :: v in s.runs && w in s.runs && s.runs[v].job == s.runs[w].job ==> v == w
  }

  /** The row a worker runs exists and is locked by that worker, with its own last write. */
  predicate HeldByRunner(s: State) {
    forall w :: w in s.runs ==>
      s.runs[w].job in s.rows
      && s.rows[s.runs[w].job].lockedBy == Some(w)
      && s.rows[s.runs[w].job].lockedAt == Some(s.runs[w].lastBeat)
  }

  function Count(log: seq<Done>, d: Done): nat {
    if log == [] then 0 else Count(log[..|log| - 1], d) + (if log[|log| - 1] == d then 1 else 0)
  }

  predicate CountsFailures(s: State) {
    forall id :: id in s.rows ==> s.rows[id].attempts == Count(s.log, Done(id, false))
  }

  /** What the rows with smaller ids than `n` may still be tried. */
  function Remaining(rows: map<JobId, Row>, n: nat): int {
    if n == 0 then 0
    else Remaining(rows, n - 1) + (if n - 1 in rows then MAX_ATTEMPTS - rows[n - 1].attempts else 0)
  }

  function BackoffSum(base: nat, attempts: nat): nat {
    if attempts == 0 then 0 else BackoffSum(base, attempts - 1) + Backoff(base, attempts)
  }

  // ----- invariants ------------------------------------------------------------------

  predicate RowsSane(s: State) {
    forall id :: id in s.rows ==>
      id < s.nextId && s.rows[id].attempts <= MAX_ATTEMPTS && s.rows[id].createdAt <= s.now
      && (s.rows[id].lockedAt.Some? <==> s.rows[id].lockedBy.Some?)
  }

  predicate RunsSane(s: State) {
    forall w :: w in s.runs ==> s.runs[w].job < s.nextId && s.runs[w].attempts < MAX_ATTEMPTS
  }

  predicate LogSane(s: State) {
    forall i :: 0 <= i < |s.log| ==> s.log[i].job < s.nextId
  }

  /** A row that was inserted and is gone has had a successful run. */
  predicate GoneMeansDone(s: State) {
    forall id: JobId :: id < s.nextId && id !in s.rows ==> Count(s.log, Done(id, true)) > 0
  }

  /** Holds in every run, whatever the clock and the heartbeats do. */
  predicate Inv(s: State) {
    RowsSane(s) && RunsSane(s) && LogSane(s) && GoneMeansDone(s)
  }

  predicate SnapshotsCurrent(s: State) {
    forall w :: w in s.runs ==> s.runs[w].job in s.rows && s.rows[s.runs[w].job].attempts == s.runs[w].attempts
  }

  predicate BeatsRecent(cfg: Config, s: State) {
    forall w :: w in s.runs ==> s.now <= s.runs[w].lastBeat + HeartbeatPeriod(cfg) + cfg.latency
  }

  /** Every job succeeds at most once, and exactly then its row is gone. */
  predicate DoneOnce(s: State) {
    forall id: JobId :: id < s.nextId ==> Count(s.log, Done(id, true)) == if id in s.rows then 0 else 1
  }

  predicate RetriesSpaced(cfg: Config, s: State) {
    forall id :: id in s.rows && s.rows[id].attempts > 0 ==>
      s.rows[id].runAt >= s.rows[id].createdAt + BackoffSum(cfg.backoffBase, s.rows[id].attempts)
  }

  /** A run started no earlier than the backoffs of the failures before it allow. */
  predicate RunsStarted(cfg: Config, s: State) {
    forall w :: w in s.runs && s.runs[w].job in s.rows ==>
      s.now >= s.rows[s.runs[w].job].createdAt + BackoffSum(cfg.backoffBase, s.runs[w].attempts)
  }

  /** Holds in every run in which heartbeats are in time. */
  predicate InvTimely(cfg: Config, s: State) {
    Inv(s) && HeldByRunner(s) && SnapshotsCurrent(s) && BeatsRecent(cfg, s)
    && CountsFailures(s) && DoneOnce(s) && RetriesSpaced(cfg, s) && RunsStarted(cfg, s)
  }

  lemma CountSnoc(log: seq<Done>, e: Done, d: Done)
    ensures Count(log + [e], d) == Count(log, d) + (if e == d then 1 else 0)
  {
    assert (log + [e])[..|log|] == log;
  }

  lemma {:induction false} CountZero(log: seq<Done>, d: Done)
    requires d !in log
    ensures Count(log, d) == 0
  {
    if log != [] { CountZero(log[..|log| - 1], d); }
  }

  lemma RowsSaneStep(cfg: Config, s: State, step: Step)
    requires RowsSane(s) && RunsSane(s) && LogSane(s) && Enabled(cfg, s, step)
    ensures RowsSane(Apply(cfg, s, step)) && RunsSane(Apply(cfg, s, step)) && LogSane(Apply(cfg, s, step))
  {
    hide Backoff, HeartbeatPeriod;
  }

  lemma GoneMeansDoneStep(cfg: Config, s: State, step: Step)
    requires GoneMeansDone(s) && RunsSane(s) && Enabled(cfg, s, step)
    ensures GoneMeansDone(Apply(cfg, s, step))
  {
    hide Count, Backoff, HeartbeatPeriod, Claimable;
    var t := Apply(cfg, s, step);
    if t.log != s.log {
      var e := Done(s.runs[step.w].job, step.FinishOk?);
      assert t.log == s.log + [e];
      forall id: JobId ensures Count(t.log, Done(id, true)) == Count(s.log, Done(id, true)) + (if e == Done(id, true) then 1 else 0) {
        CountSnoc(s.log, e, Done(id, true));
      }
    }
  }

  lemma InvStep(cfg: Config, s: State, step: Step)
    requires Inv(s) && Enabled(cfg, s, step)
    ensures Inv(Apply(cfg, s, step))
  {
    RowsSaneStep(cfg, s, step);
    GoneMeansDoneStep(cfg, s, step);
  }

  /** The heart of exclusion: a row some worker runs is not claimable by another. */
  lemma RunningNotClaimable(cfg: Config, s: State, w: WorkerId)
    requires Timely(cfg) && HeldByRunner(s) && BeatsRecent(cfg, s) && w in s.runs
    ensures !Claimable(s.rows[s.runs[w].job], s.now, cfg.stale)
  {
    assert s.rows[s.runs[w].job].lockedAt == Some(s.runs[w].lastBeat);
  }

  lemma HeldClaim(cfg: Config, s: State, step: Step)
    requires Timely(cfg) && HeldByRunner(s) && SnapshotsCurrent(s) && BeatsRecent(cfg, s)
    requires step.Claim? && Enabled(cfg, s, step)
    ensures HeldByRunner(Apply(cfg, s, step)) && SnapshotsCurrent(Apply(cfg, s, step)) && BeatsRecent(cfg, Apply(cfg, s, step))
  {
    forall w | w in s.runs ensures s.runs[w].job != step.id {
      RunningNotClaimable(cfg, s, w);
    }
  }

  lemma HeldOther(cfg: Config, s: State, step: Step)
    requires HeldByRunner(s) && SnapshotsCurrent(s) && BeatsRecent(cfg, s) && RowsSane(s)
    requires !step.Claim? && Enabled(cfg, s, step)
    ensures HeldByRunner(Apply(cfg, s, step)) && SnapshotsCurrent(Apply(cfg, s, step)) && BeatsRecent(cfg, Apply(cfg, s, step))
  {
    hide Backoff, HeartbeatPeriod;
  }

  lemma HeldStep(cfg: Config, s: State, step: Step)
    requires Timely(cfg) && HeldByRunner(s) && SnapshotsCurrent(s) && BeatsRecent(cfg, s) && RowsSane(s)
    requires Enabled(cfg, s, step)
    ensures HeldByRunner(Apply(cfg, s, step)) && SnapshotsCurrent(Apply(cfg, s, step)) && BeatsRecent(cfg, Apply(cfg, s, step))
  {
    if step.Claim? { HeldClaim(cfg, s, step); } else { HeldOther(cfg, s, step); }
  }

  lemma CountsAppended(s: State, e: Done, id: JobId)
    ensures Count(s.log + [e], Done(id, true)) == Count(s.log, Done(id, true)) + (if e == Done(id, true) then 1 else 0)
    ensures Count(s.log + [e], Done(id, false)) == Count(s.log, Done(id, false)) + (if e == Done(id, false) then 1 else 0)
  {
    CountSnoc(s.log, e, Done(id, true));
    CountSnoc(s.log, e, Done(id, false));
  }

  lemma CountsEnqueue(cfg: Config, s: State, runAt: Option<int>)
    requires CountsFailures(s) && DoneOnce(s) && RowsSane(s) && LogSane(s)
    ensures CountsFailures(Apply(cfg, s, Enqueue(runAt))) && DoneOnce(Apply(cfg, s, Enqueue(runAt)))
  {
    CountZero(s.log, Done(s.nextId, false));
    CountZero(s.log, Done(s.nextId, true));
  }

  lemma CountsSucceed(cfg: Config, s: State, w: WorkerId)
    requires HeldByRunner(s) && CountsFailures(s) && DoneOnce(s) && RowsSane(s) && w in s.runs
    ensures CountsFailures(Apply(cfg, s, FinishOk(w, true))) && DoneOnce(Apply(cfg, s, FinishOk(w, true)))
  {
    hide Count;
    forall id: JobId { CountsAppended(s, Done(s.runs[w].job, true), id); }
  }

  lemma CountsFail(cfg: Config, s: State, w: WorkerId, error: string)
    requires SnapshotsCurrent(s) && CountsFailures(s) && DoneOnce(s) && w in s.runs
    ensures CountsFailures(Apply(cfg, s, FinishErr(w, error, true))) && DoneOnce(Apply(cfg, s, FinishErr(w, error, true)))
  {
    hide Count, Backoff;
    forall id: JobId { CountsAppended(s, Done(s.runs[w].job, false), id); }
  }

  lemma CountsStep(cfg: Config, s: State, step: Step)
    requires SnapshotsCurrent(s) && HeldByRunner(s) && CountsFailures(s) && DoneOnce(s) && RowsSane(s) && LogSane(s)
    requires Enabled(cfg, s, step)
    ensures CountsFailures(Apply(cfg, s, step)) && DoneOnce(Apply(cfg, s, step))
  {
    hide Count, Backoff, Claimable;
    if step.Enqueue? {
      CountsEnqueue(cfg, s, step.runAt);
    } else if step.FinishOk? && step.stored {
      CountsSucceed(cfg, s, step.w);
    } else if step.FinishErr? && step.stored {
      CountsFail(cfg, s, step.w, step.error);
    } else {
      var t := Apply(cfg, s, step);
      assert t.log == s.log && t.rows.Keys == s.rows.Keys;
      assert forall id :: id in s.rows ==> t.rows[id].attempts == s.rows[id].attempts;
    }
  }

  lemma SpacingStepFail(cfg: Config, s: State, step: Step)
    requires RetriesSpaced(cfg, s) && SnapshotsCurrent(s) && RunsStarted(cfg, s) && step.FinishErr?
    requires Enabled(cfg, s, step)
    ensures RetriesSpaced(cfg, Apply(cfg, s, step)) && RunsStarted(cfg, Apply(cfg, s, step))
  {
    var run, t := s.runs[step.w], Apply(cfg, s, step);
    var sum := BackoffSum(cfg.backoffBase, run.attempts + 1);
    assert sum == BackoffSum(cfg.backoffBase, run.attempts) + Backoff(cfg.backoffBase, run.attempts + 1);
    forall id | id in t.rows && t.rows[id].attempts > 0
      ensures t.rows[id].runAt >= t.rows[id].createdAt + BackoffSum(cfg.backoffBase, t.rows[id].attempts)
    {
      if step.stored && id == run.job {
        assert t.rows[id].attempts == run.attempts + 1;
      } else {
        assert t.rows[id] == s.rows[id];
      }
    }
  }

  lemma SpacingClaim(cfg: Config, s: State, step: Step)
    requires RetriesSpaced(cfg, s) && RunsStarted(cfg, s) && RowsSane(s) && step.Claim? && Enabled(cfg, s, step)
    ensures RetriesSpaced(cfg, Apply(cfg, s, step)) && RunsStarted(cfg, Apply(cfg, s, step))
  {
    var row := s.rows[step.id];
    assert row.attempts == 0 ==> BackoffSum(cfg.backoffBase, row.attempts) == 0;
    hide Backoff, BackoffSum;
    assert s.now >= row.createdAt + BackoffSum(cfg.backoffBase, row.attempts);
  }

  lemma SpacingStepOther(cfg: Config, s: State, step: Step)
    requires RetriesSpaced(cfg, s) && SnapshotsCurrent(s) && RunsStarted(cfg, s) && RowsSane(s) && RunsSane(s)
    requires Enabled(cfg, s, step) && !step.FinishErr? && !step.Claim?
    ensures RetriesSpaced(cfg, Apply(cfg, s, step)) && RunsStarted(cfg, Apply(cfg, s, step))
  {
    hide Backoff, BackoffSum;
    var t := Apply(cfg, s, step);
    forall id | id in t.rows
      ensures if id in s.rows
              then t.rows[id].runAt == s.rows[id].runAt && t.rows[id].attempts == s.rows[id].attempts
                   && t.rows[id].createdAt == s.rows[id].createdAt
              else t.rows[id].attempts == 0
    {}
    forall w | w in t.runs && t.runs[w].job in t.rows
      ensures t.runs[w].job in s.rows && w in s.runs && t.runs[w].job == s.runs[w].job && t.runs[w].attempts == s.runs[w].attempts
    {}
  }

  lemma SpacingStep(cfg: Config, s: State, step: Step)
    requires RetriesSpaced(cfg, s) && SnapshotsCurrent(s) && RunsStarted(cfg, s) && RowsSane(s) && RunsSane(s)
    requires Enabled(cfg, s, step)
    ensures RetriesSpaced(cfg, Apply(cfg, s, step)) && RunsStarted(cfg, Apply(cfg, s, step))
  {
    if step.FinishErr? {
      SpacingStepFail(cfg, s, step);
    } else if step.Claim? {
      SpacingClaim(cfg, s, step);
    } else {
      SpacingStepOther(cfg, s, step);
    }
  }

  lemma InvTimelyStep(cfg: Config, s: State, step: Step)
    requires Timely(cfg) && InvTimely(cfg, s) && Enabled(cfg, s, step)
    ensures InvTimely(cfg, Apply(cfg, s, step))
  {
    InvStep(cfg, s, step);
    HeldStep(cfg, s, step);
    CountsStep(cfg, s, step);
    SpacingStep(cfg, s, step);
  }

  lemma {:induction false} InvAlong(cfg: Config, s: State, steps: seq<Step>)
    requires Inv(s) && Allowed(cfg, s, steps)
    ensures Inv(After(cfg, s, steps))
    decreases |steps|
  {
    if steps != [] {
      InvStep(cfg, s, steps[0]);
      InvAlong(cfg, Apply(cfg, s, steps[0]), steps[1..]);
    }
  }

  lemma {:induction false} InvTimelyAlong(cfg: Config, s: State, steps: seq<Step>)
    requires Timely(cfg) && InvTimely(cfg, s) && Allowed(cfg, s, steps)
    ensures InvTimely(cfg, After(cfg, s, steps))
    decreases |steps|
  {
    if steps != [] {
      InvTimelyStep(cfg, s, steps[0]);
      InvTimelyAlong(cfg, Apply(cfg, s, steps[0]), steps[1..]);
    }
  }

  lemma ReachableInv(cfg: Config, s: State)
    requires Reachable(cfg, s)
    ensures Inv(s) && (Timely(cfg) ==> InvTimely(cfg, s))
  {
    var start, steps :| Allowed(cfg, Init(start), steps) && After(cfg, Init(start), steps) == s;
    InvAlong(cfg, Init(start), steps);
    if Timely(cfg) { InvTimelyAlong(cfg, Init(start), steps); }
  }

  lemma {:induction false} AfterSnoc(cfg: Config, s: State, steps: seq<Step>, step: Step)
    requires Allowed(cfg, s, steps) && Enabled(cfg, After(cfg, s, steps), step)
    ensures Allowed(cfg, s, steps + [step])
    ensures After(cfg, s, steps + [step]) == Apply(cfg, After(cfg, s, steps), step)
    decreases |steps|
  {
    var all := steps + [step];
    if steps == [] {
      assert all[1..] == [];
    } else {
      assert all[1..] == steps[1..] + [step];
      AfterSnoc(cfg, Apply(cfg, s, steps[0]), steps[1..], step);
    }
  }

  lemma Extend(cfg: Config, s: State, step: Step) returns (t: State)
    requires Reachable(cfg, s) && Enabled(cfg, s, step)
    ensures t == Apply(cfg, s, step) && Reachable(cfg, t)
  {
    var start, steps :| Allowed(cfg, Init(start), steps) && After(cfg, Init(start), steps) == s;
    AfterSnoc(cfg, Init(start), steps, step);
    t := Apply(cfg, s, step);
  }

  lemma InitReachable(cfg: Config)
    ensures Reachable(cfg, Init(0))
  {
    assert Allowed(cfg, Init(0), []) && After(cfg, Init(0), []) == Init(0);
  }

  // ----- exclusion, exactly when heartbeats are in time ------------------------------

  /** With punctual heartbeats the condition is that the timeout is at least the 50 ms floor. */
  lemma TimelyWhenPunctual(cfg: Config)
    requires cfg.latency == 0
    ensures Timely(cfg) <==> cfg.stale >= 50_000_000
  {
  }

  /** The period is half the timeout, but no less than the floor, and a live worker lets no more
      time pass than its latency beyond that. */
  lemma PeriodExact(cfg: Config, s: State, to: int)
    ensures Timely(cfg) <==> cfg.stale / 2 + cfg.latency <= cfg.stale && 50_000_000 + cfg.latency <= cfg.stale
    ensures Enabled(cfg, s, Tick(to)) <==>
              s.now <= to && forall w :: w in s.runs ==>
                to - s.runs[w].lastBeat - cfg.latency <= cfg.stale / 2 || to - s.runs[w].lastBeat - cfg.latency <= 50_000_000
  {
  }

  /** A heartbeat that may come after the lock is stale lets a second worker in. */
  lemma LateHeartbeatBreaksExclusion(cfg: Config) returns (s: State)
    requires !Timely(cfg)
    ensures Reachable(cfg, s) && s.log == [] && s.rows.Keys == {0} && s.rows[0].attempts == 0
    ensures s.runs.Keys == {0, 1} && s.runs[0].job == s.runs[1].job == 0
    ensures s.runs[0].attempts == s.runs[1].attempts == 0 && s.rows[0].lockedBy == Some(1)
    ensures s.now == s.runs[1].lastBeat == s.runs[0].lastBeat
  {
    hide Backoff;
    InitReachable(cfg);
    s := Extend(cfg, Init(0), Enqueue(None));
    s := Extend(cfg, s, Claim(0, 0, {}));
    s := Extend(cfg, s, Tick(cfg.stale + 1));
    s := Extend(cfg, s, Claim(1, 0, {}));
    s := Extend(cfg, s, Heartbeat(0, true));
  }

  /** No two workers ever run the same job, and the row is locked by the worker that runs
      it, in all runs exactly if heartbeats are in time. */
  lemma ExclusiveIffTimely(cfg: Config)
    ensures Timely(cfg) <==> forall s :: Reachable(cfg, s) ==> Exclusive(s) && HeldByRunner(s)
  {
    if Timely(cfg) {
      forall s | Reachable(cfg, s) ensures Exclusive(s) && HeldByRunner(s) {
        ReachableInv(cfg, s);
        forall v, w | v in s.runs && w in s.runs && s.runs[v].job == s.runs[w].job ensures v == w {
          assert s.rows[s.runs[v].job].lockedBy == Some(v) && s.rows[s.runs[w].job].lockedBy == Some(w);
        }
      }
    } else {
      var s := LateHeartbeatBreaksExclusion(cfg);
      assert 0 in s.runs && 1 in s.runs && !Exclusive(s);
    }
  }

  // ----- attempts ----------------------------------------------------------------------

  /** Whatever happens, no row exceeds the maximum, no exhausted job is started, and a row
      only ever leaves the table because a run of it succeeded. */
  lemma AlwaysBounded(cfg: Config, s: State)
    requires Reachable(cfg, s)
    ensures forall id :: id in s.rows ==> s.rows[id].attempts <= 3
    ensures forall w :: w in s.runs ==> s.runs[w].attempts < 3
    ensures forall id: JobId :: id < s.nextId && id !in s.rows ==> Count(s.log, Done(id, true)) > 0
  {
    ReachableInv(cfg, s);
  }

  /** `attempts` is the number of failed runs, in all runs exactly if heartbeats are in time. */
  lemma AttemptsCountFailuresIffTimely(cfg: Config)
    ensures Timely(cfg) <==> forall s :: Reachable(cfg, s) ==> CountsFailures(s)
  {
    if Timely(cfg) {
      forall s | Reachable(cfg, s) ensures CountsFailures(s) { ReachableInv(cfg, s); }
    } else {
      var s0 := LateHeartbeatBreaksExclusion(cfg);
      var s1 := Extend(cfg, s0, FinishErr(0, "", true));
      var s2 := Extend(cfg, s1, FinishErr(1, "", true));
      CountSnoc(s0.log, Done(0, false), Done(0, false));
      CountSnoc(s1.log, Done(0, false), Done(0, false));
      assert 0 in s2.rows && s2.rows[0].attempts == 1 && Count(s2.log, Done(0, false)) == 2;
    }
  }

  /** In time, each job succeeds at most once, and its row is gone exactly then. */
  lemma SucceedsOnce(cfg: Config, s: State, id: JobId)
    requires Timely(cfg) && Reachable(cfg, s) && id < s.nextId
    ensures Count(s.log, Done(id, true)) == if id in s.rows then 0 else 1
  {
    ReachableInv(cfg, s);
  }

  ghost predicate LeadsTo(cfg: Config, s: State, t: State) {
    exists steps: seq<Step> :: Allowed(cfg, s, steps) && After(cfg, s, steps) == t
  }

  /** Rows out of attempts are in the later state as they were. */
  predicate ExhaustedKept(s: State, t: State) {
    forall id :: id in s.rows && s.rows[id].attempts >= 3 ==> id in t.rows && t.rows[id] == s.rows[id]
  }

  lemma ExhaustedNotRun(cfg: Config, s: State, id: JobId)
    requires InvTimely(cfg, s) && id in s.rows && s.rows[id].attempts >= MAX_ATTEMPTS
    ensures forall w :: w in s.runs ==> s.runs[w].job != id
  {
    assert RunsSane(s) && SnapshotsCurrent(s);
  }

  lemma {:induction false} ExhaustedKeptAlong(cfg: Config, s: State, steps: seq<Step>)
    requires Timely(cfg) && InvTimely(cfg, s) && Allowed(cfg, s, steps)
    ensures ExhaustedKept(s, After(cfg, s, steps))
    decreases |steps|
  {
    if steps != [] {
      var t := Apply(cfg, s, steps[0]);
      assert ExhaustedKept(s, t) by {
        assert RowsSane(s);
        forall id | id in s.rows && s.rows[id].attempts >= MAX_ATTEMPTS
          ensures id in t.rows && t.rows[id] == s.rows[id]
        { ExhaustedNotRun(cfg, s, id); }
      }
      InvTimelyStep(cfg, s, steps[0]);
      ExhaustedKeptAlong(cfg, t, steps[1..]);
    }
  }

  /** Time can pass while a worker that lost its row keeps sending heartbeats. */
  lemma Wait(cfg: Config, s: State, until: int) returns (t: State)
    requires Reachable(cfg, s) && s.runs.Keys == {0} && s.now <= until
    requires forall id :: id in s.rows ==> s.rows[id].lockedBy != Some(0)
    ensures Reachable(cfg, t) && t.now == until && t.rows == s.rows
    ensures t.runs.Keys == {0} && t.runs[0].job == s.runs[0].job && t.runs[0].attempts == s.runs[0].attempts
    decreases until - s.now
  {
    t := Extend(cfg, s, Heartbeat(0, true));
    var reach := s.now + HeartbeatPeriod(cfg) + cfg.latency;
    t := Extend(cfg, t, Tick(if until < reach then until else reach));
    if t.now < until { t := Wait(cfg, t, until); }
  }

  lemma FailOnce(cfg: Config, s: State) returns (t: State)
    requires Reachable(cfg, s) && s.runs.Keys == {0} && s.rows.Keys == {0}
    requires s.runs[0].job == 0 && s.rows[0].attempts < MAX_ATTEMPTS && s.rows[0].lockedBy.None? && s.rows[0].lockedAt.None?
    ensures Reachable(cfg, t) && t.runs.Keys == {0} && t.runs[0].job == 0 && t.runs[0].attempts == s.runs[0].attempts
    ensures t.rows.Keys == {0} && t.rows[0].attempts == s.rows[0].attempts + 1
    ensures t.rows[0].lockedBy.None? && t.rows[0].lockedAt.None?
  {
    t := Wait(cfg, s, if s.rows[0].runAt > s.now then s.rows[0].runAt else s.now);
    t := Extend(cfg, t, Claim(1, 0, {}));
    t := Extend(cfg, t, FinishErr(1, "", true));
  }

  lemma OneStep(cfg: Config, s: State, step: Step)
    requires Enabled(cfg, s, step)
    ensures Allowed(cfg, s, [step]) && After(cfg, s, [step]) == Apply(cfg, s, step)
  {
    assert [step][1..] == [];
    var t := Apply(cfg, s, step);
    assert Allowed(cfg, t, []) && After(cfg, t, []) == t;
  }

  lemma LateHeartbeatRevivesExhausted(cfg: Config) returns (s: State, t: State)
    requires !Timely(cfg)
    ensures Reachable(cfg, s) && LeadsTo(cfg, s, t) && !ExhaustedKept(s, t)
  {
    hide Backoff, HeartbeatPeriod;
    s := LateHeartbeatBreaksExclusion(cfg);
    s := Extend(cfg, s, FinishErr(1, "", true));
    s := FailOnce(cfg, s);
    s := FailOnce(cfg, s);
    var step := FinishErr(0, "", true);
    t := Apply(cfg, s, step);
    OneStep(cfg, s, step);
    assert 0 in s.rows && s.rows[0].attempts == MAX_ATTEMPTS && t.rows[0].attempts == 1;
  }

  /** A job dropped after the last attempt stays as it is for ever, in all runs exactly if
      heartbeats are in time. */
  lemma ExhaustedFinalIffTimely(cfg: Config)
    ensures Timely(cfg) <==> forall s, t :: Reachable(cfg, s) && LeadsTo(cfg, s, t) ==> ExhaustedKept(s, t)
  {
    if Timely(cfg) {
      forall s, t | Reachable(cfg, s) && LeadsTo(cfg, s, t) ensures ExhaustedKept(s, t) {
        ReachableInv(cfg, s);
        var steps :| Allowed(cfg, s, steps) && After(cfg, s, steps) == t;
        ExhaustedKeptAlong(cfg, s, steps);
      }
    } else {
      var s, t := LateHeartbeatRevivesExhausted(cfg);
    }
  }

  // ----- a measure, spacing and recovery -------------------------------------------------

  lemma {:induction false} RemainingUpdate(rows: map<JobId, Row>, rows': map<JobId, Row>, id: JobId, n: nat)
    requires forall k :: k != id ==> (k in rows <==> k in rows') && (k in rows ==> rows[k].attempts == rows'[k].attempts)
    ensures Remaining(rows', n) - Remaining(rows, n)
            == if id < n then (if id in rows' then MAX_ATTEMPTS - rows'[id].attempts else 0)
                              - (if id in rows then MAX_ATTEMPTS - rows[id].attempts else 0)
               else 0
  {
    if n > 0 { RemainingUpdate(rows, rows', id, n - 1); }
  }

  lemma {:induction false} RemainingNonNegative(rows: map<JobId, Row>, n: nat)
    requires forall id :: id in rows ==> rows[id].attempts <= MAX_ATTEMPTS
    ensures Remaining(rows, n) >= 0
  {
    if n > 0 { RemainingNonNegative(rows, n - 1); }
  }

  /** Every completed run uses up at least one remaining attempt; nothing but a new job adds any. */
  lemma CompletionDecreasesRemaining(cfg: Config, s: State, step: Step)
    requires InvTimely(cfg, s) && Enabled(cfg, s, step)
    ensures var t := Apply(cfg, s, step);
            var change := Remaining(t.rows, t.nextId) - Remaining(s.rows, s.nextId);
            if step.Enqueue? then change == 3 && t.log == s.log
            else if t.log != s.log then change < 0 && |t.log| == |s.log| + 1
            else change == 0
  {
    hide HeldByRunner, BeatsRecent, CountsFailures, DoneOnce, RetriesSpaced, RunsStarted, LogSane, GoneMeansDone;
    var t := Apply(cfg, s, step);
    var id := match step
      case Enqueue(_) => s.nextId
      case Claim(_, id, _) => id
      case Tick(_) => 0
      case _ => s.runs[step.w].job;
    assert RowsSane(s) && RunsSane(s) && SnapshotsCurrent(s);
    RemainingUpdate(s.rows, t.rows, id, s.nextId);
  }

  lemma {:induction false} CompletionsBoundedAlong(cfg: Config, s: State, steps: seq<Step>)
    requires Timely(cfg) && InvTimely(cfg, s) && Allowed(cfg, s, steps)
    requires |s.log| + Remaining(s.rows, s.nextId) <= MAX_ATTEMPTS * s.nextId
    ensures var t := After(cfg, s, steps);
            |t.log| + Remaining(t.rows, t.nextId) <= MAX_ATTEMPTS * t.nextId
    decreases |steps|
  {
    hide HeldByRunner, BeatsRecent, CountsFailures, DoneOnce, RetriesSpaced, RunsStarted, Inv, SnapshotsCurrent, Timely;
    if steps != [] {
      CompletionDecreasesRemaining(cfg, s, steps[0]);
      InvTimelyStep(cfg, s, steps[0]);
      CompletionsBoundedAlong(cfg, Apply(cfg, s, steps[0]), steps[1..]);
    }
  }

  /** All completed runs and all remaining attempts together are within three per job. */
  lemma CompletionsBounded(cfg: Config, s: State)
    requires Timely(cfg) && Reachable(cfg, s)
    ensures |s.log| + Remaining(s.rows, s.nextId) <= 3 * s.nextId
    ensures |s.log| <= 3 * s.nextId
  {
    var start, steps :| Allowed(cfg, Init(start), steps) && After(cfg, Init(start), steps) == s;
    CompletionsBoundedAlong(cfg, Init(start), steps);
    ReachableInv(cfg, s);
    RemainingNonNegative(s.rows, s.nextId);
  }

  /** A job is not running, and not claimable, before the backoffs of all its failures have passed. */
  lemma RetriesWaitForBackoff(cfg: Config, s: State)
    requires Timely(cfg) && Reachable(cfg, s)
    ensures forall w :: w in s.runs ==>
              s.runs[w].job in s.rows
              && s.now >= s.rows[s.runs[w].job].createdAt + BackoffSum(cfg.backoffBase, s.runs[w].attempts)
    ensures forall id :: id in s.rows && Claimable(s.rows[id], s.now, cfg.stale) ==>
              s.now >= s.rows[id].createdAt + BackoffSum(cfg.backoffBase, s.rows[id].attempts)
  {
    ReachableInv(cfg, s);
  }

  /** With the default base of 10 s the third try starts at least 30 s after the enqueueing. */
  lemma BackoffSums(base: nat)
    requires 2 * base <= DURATION_MAX
    ensures BackoffSum(base, 1) == base && BackoffSum(base, 2) == 3 * base
  {
    assert Backoff(base, 1) == base && Backoff(base, 2) == 2 * base;
  }

  /** A failure that reaches the database makes the job due again after one base per attempt so
      far, without a lock and with its error, and below three attempts it can be claimed from
      that instant on. */
  lemma FailureReschedules(cfg: Config, s: State, w: WorkerId, error: string, x: int)
    requires w in s.runs && s.runs[w].job in s.rows && cfg.backoffBase * (s.runs[w].attempts + 1) < 18_446_744_073_709_551_616_000_000_000
    ensures var id, k := s.runs[w].job, s.runs[w].attempts + 1;
            var t := Apply(cfg, s, FinishErr(w, error, true));
            && t.rows.Keys == s.rows.Keys && (forall n :: n in s.rows && n != id ==> t.rows[n] == s.rows[n])
            && t.rows[id] == Row(s.now + cfg.backoffBase * k, None, None, k, Some(error), s.rows[id].createdAt)
            && (Claimable(t.rows[id], x, cfg.stale) <==> k < 3 && x >= s.now + cfg.backoffBase * k)
  {
  }

  /** Where the product would exceed the longest duration, that one is the delay. */
  lemma LongestBackoff(cfg: Config, s: State, w: WorkerId, error: string)
    requires w in s.runs && s.runs[w].job in s.rows && cfg.backoffBase * (s.runs[w].attempts + 1) >= 18_446_744_073_709_551_616_000_000_000
    ensures Apply(cfg, s, FinishErr(w, error, true)).rows[s.runs[w].job].runAt == s.now + 18_446_744_073_709_551_615_999_999_999
  {
  }

  /** A new job can be claimed from its requested time on and not before, at once if it has none. */
  lemma NewJobDue(cfg: Config, s: State, runAt: Option<int>, x: int)
    requires RowsSane(s)
    ensures var t := Apply(cfg, s, Enqueue(runAt));
            && t.rows.Keys == s.rows.Keys + {s.nextId} && s.nextId !in s.rows && t.nextId == s.nextId + 1
            && (forall n :: n in s.rows ==> t.rows[n] == s.rows[n])
            && t.rows[s.nextId].attempts == 0 && t.rows[s.nextId].createdAt == s.now
            && (Claimable(t.rows[s.nextId], x, cfg.stale) <==> x >= if runAt.Some? then runAt.value else s.now)
  {
  }

  /** A row can be claimed if it is due, has been tried less than three times and its lock is
      free or older than the timeout. */
  predicate Ready(cfg: Config, row: Row, now: int) {
    row.runAt <= now && row.attempts < 3 && (row.lockedAt.Some? ==> now - row.lockedAt.value > cfg.stale)
  }

  /** An idle worker can claim exactly the rows that can be claimed, that no other transaction
      holds, and none that is due later than another such. The claim locks the row for the worker
      at that instant and counts nothing. */
  lemma ClaimTakes(cfg: Config, s: State, w: WorkerId, id: JobId, skipped: set<JobId>)
    ensures Enabled(cfg, s, Claim(w, id, skipped)) <==>
              && w !in s.runs && id in s.rows && id !in skipped && Ready(cfg, s.rows[id], s.now)
              && forall k :: k in s.rows && k !in skipped && s.rows[k].runAt < s.rows[id].runAt ==> !Ready(cfg, s.rows[k], s.now)
    ensures Enabled(cfg, s, Claim(w, id, skipped)) ==>
              var t := Apply(cfg, s, Claim(w, id, skipped));
              && t.rows == s.rows[id := s.rows[id].(lockedAt := Some(s.now), lockedBy := Some(w))]
              && t.runs == s.runs[w := Run(id, s.rows[id].attempts, s.now)]
  {
    forall k | k in s.rows ensures Claimable(s.rows[k], s.now, cfg.stale) <==> Ready(cfg, s.rows[k], s.now) {}
  }

  lemma {:induction false} EarliestOf(rows: map<JobId, Row>, ids: set<JobId>) returns (e: JobId)
    requires ids != {} && ids <= rows.Keys
    ensures e in ids && forall k :: k in ids ==> rows[e].runAt <= rows[k].runAt
    decreases |ids|
  {
    var k :| k in ids;
    e := k;
    if ids != {k} {
      assert k in ids && ids - {k} != {};
      var other := EarliestOf(rows, ids - {k});
      if rows[other].runAt < rows[k].runAt { e := other; }
      forall i | i in ids ensures rows[e].runAt <= rows[i].runAt { assert i == k || i in ids - {k}; }
    }
  }

  lemma Prepend(cfg: Config, s: State, step: Step, steps: seq<Step>)
    requires Enabled(cfg, s, step) && Allowed(cfg, Apply(cfg, s, step), steps)
    ensures Allowed(cfg, s, [step] + steps) && After(cfg, s, [step] + steps) == After(cfg, Apply(cfg, s, step), steps)
  {
    assert ([step] + steps)[1..] == steps;
  }

  /** Ordinary claims: nobody else is claiming at the same time. */
  predicate OrdinaryClaims(steps: seq<Step>) {
    forall i :: 0 <= i < |steps| && steps[i].Claim? ==> steps[i].skipped == {}
  }

  /** A worker that takes and finishes one due job after the other gets to every one of them. */
  lemma {:induction false} TurnComes(cfg: Config, s: State, id: JobId, w: WorkerId) returns (steps: seq<Step>)
    requires s.runs == map[] && id in s.rows && Claimable(s.rows[id], s.now, cfg.stale)
    ensures Allowed(cfg, s, steps) && OrdinaryClaims(steps)
    ensures var t := After(cfg, s, steps);
            t.runs.Keys == {w} && t.runs[w].job == id && t.runs[w].attempts == s.rows[id].attempts
            && id in t.rows && t.rows[id].lockedBy == Some(w)
    decreases |s.rows|
  {
    hide Backoff, HeartbeatPeriod;
    var due := set k | k in s.rows && Claimable(s.rows[k], s.now, cfg.stale);
    assert id in due;
    var e := EarliestOf(s.rows, due);
    if s.rows[id].runAt == s.rows[e].runAt { e := id; }
    assert NextToClaim(s.rows, e, s.now, cfg.stale, {});
    var t := Apply(cfg, s, Claim(w, e, {}));
    if e == id {
      steps := [Claim(w, e, {})];
      OneStep(cfg, s, Claim(w, e, {}));
    } else {
      var u := Apply(cfg, t, FinishOk(w, true));
      assert u.rows == s.rows - {e} && u.runs == map[];
      assert u.rows.Keys < s.rows.Keys && |u.rows.Keys| < |s.rows.Keys| by { FewerKeys(s.rows, e); }
      var rest := TurnComes(cfg, u, id, w);
      Prepend(cfg, t, FinishOk(w, true), rest);
      Prepend(cfg, s, Claim(w, e, {}), [FinishOk(w, true)] + rest);
      steps := [Claim(w, e, {})] + ([FinishOk(w, true)] + rest);
    }
  }

  lemma FewerKeys(rows: map<JobId, Row>, e: JobId)
    requires e in rows
    ensures (rows - {e}).Keys == rows.Keys - {e} && |rows - {e}| < |rows|
  {
    assert (rows - {e}).Keys == rows.Keys - {e};
  }

  /** Once no worker is left, every job with attempts left can be taken over by any worker
      with ordinary claims. */
  lemma AbandonedJobRecovered(cfg: Config, s: State, id: JobId, w: WorkerId) returns (steps: seq<Step>)
    requires s.runs == map[] && id in s.rows && s.rows[id].attempts < MAX_ATTEMPTS
    ensures Allowed(cfg, s, steps) && OrdinaryClaims(steps)
    ensures var t := After(cfg, s, steps);
            t.runs.Keys == {w} && t.runs[w].job == id && t.runs[w].attempts == s.rows[id].attempts
            && id in t.rows && t.rows[id].lockedBy == Some(w)
  {
    var row := s.rows[id];
    var t0 := if row.runAt > s.now then row.runAt else s.now;
    var t1 := if row.lockedAt.Some? && row.lockedAt.value + cfg.stale + 1 > t0
              then row.lockedAt.value + cfg.stale + 1 else t0;
    var rest := TurnComes(cfg, Apply(cfg, s, Tick(t1)), id, w);
    Prepend(cfg, s, Tick(t1), rest);
    steps := [Tick(t1)] + rest;
  }

  /** The holder of a row changes only when its lock is free or stale, or when a run of
      this job ends; a heartbeat never moves or prolongs another worker's lock. */
  lemma LockChangesHands(cfg: Config, s: State, step: Step, id: JobId)
    requires RowsSane(s) && Enabled(cfg, s, step) && id in s.rows && id in Apply(cfg, s, step).rows
    requires Apply(cfg, s, step).rows[id] != s.rows[id]
    ensures match step
            case Claim(w, k, _) =>
              k == id && Claimable(s.rows[id], s.now, cfg.stale) && Apply(cfg, s, step).rows[id].lockedBy == Some(w)
            case Heartbeat(w, stored) =>
              stored && s.rows[id].lockedBy == Some(w) && s.runs[w].job == id
              && Apply(cfg, s, step).rows[id] == s.rows[id].(lockedAt := Some(s.now))
            case FinishErr(w, _, stored) =>
              stored && s.runs[w].job == id && Apply(cfg, s, step).rows[id].lockedBy.None?
            case _ => false
  {
  }

  // ----- one execution ------------------------------------------------------------------------

  /** A heartbeat statement: when it takes effect, and whether the database stores it. */
  datatype Beat = Beat(now: int, stored: bool)

  function Beaten(rows: map<JobId, Row>, id: JobId, w: WorkerId, beats: seq<Beat>): map<JobId, Row>
    decreases |beats|
  {
    if |beats| == 0 then rows
    else Beaten(if beats[0].stored then RelockRow(rows, id, w, beats[0].now) else rows, id, w, beats[1..])
  }

  /** The time of the last stored heartbeat. */
  function LastBeat(beats: seq<Beat>): Option<int>
    decreases |beats|
  {
    if |beats| == 0 then None
    else if beats[|beats| - 1].stored then Some(beats[|beats| - 1].now)
    else LastBeat(beats[..|beats| - 1])
  }

  lemma {:induction false} BeatenSnoc(rows: map<JobId, Row>, id: JobId, w: WorkerId, beats: seq<Beat>, b: Beat)
    ensures Beaten(rows, id, w, beats + [b])
            == if b.stored then RelockRow(Beaten(rows, id, w, beats), id, w, b.now) else Beaten(rows, id, w, beats)
    decreases |beats|
  {
    if |beats| == 0 {
      assert (beats + [b])[1..] == [];
    } else {
      assert (beats + [b])[1..] == beats[1..] + [b];
      BeatenSnoc(if beats[0].stored then RelockRow(rows, id, w, beats[0].now) else rows, id, w, beats[1..], b);
    }
  }

  /** Any number of heartbeats changes at most the lock time of the worker's own row, to the
      last one that was stored; a row that another worker has taken over stays as it is. */
  lemma {:induction false} BeatsRenewOnly(rows: map<JobId, Row>, id: JobId, w: WorkerId, beats: seq<Beat>)
    ensures var out := Beaten(rows, id, w, beats);
            out == if id in rows && rows[id].lockedBy == Some(w) && LastBeat(beats).Some?
                   then rows[id := rows[id].(lockedAt := LastBeat(beats))]
                   else rows
    decreases |beats|
  {
    if |beats| > 0 {
      var n := |beats| - 1;
      assert beats == beats[..n] + [beats[n]];
      BeatsRenewOnly(rows, id, w, beats[..n]);
      BeatenSnoc(rows, id, w, beats[..n], beats[n]);
    }
  }

  // ----- the table the workers share -------------------------------------------------------

  datatype ClaimedJob = ClaimedJob(id: JobId, attempts: nat)

  class JobTable {
    var rows: map<JobId, Row>
    var nextId: JobId
    const cfg: Config

    ghost predicate Valid() reads this {
      forall id :: id in rows ==> id < nextId
    }

    constructor (cfg: Config)
      ensures Valid() && rows == map[] && nextId == 0 && this.cfg == cfg
    {
      rows, nextId, this.cfg := map[], 0, cfg;
    }

    method Enqueue(runAt: Option<int>, now: int) returns (id: JobId)
      requires Valid()
      modifies this
      ensures Valid() && id == old(nextId) && id !in old(rows) && nextId == id + 1
      ensures rows == InsertRow(old(rows), id, runAt, now)
    {
      id := nextId;
      rows := rows[id := Row(match runAt case Some(at) => at case None => now, None, None, 0, None, now)];
      nextId := nextId + 1;
    }

    /** Scans for the claimable row with the smallest `run_at`, then locks it. */
    method Claim(w: WorkerId, now: int, skipped: set<JobId>) returns (job: Option<ClaimedJob>)
      requires Valid()
      modifies this`rows
      ensures Valid()
      ensures job.None? ==>
                rows == old(rows)
                && forall id :: id in rows && id !in skipped ==> !Claimable(rows[id], now, cfg.stale)
      ensures job.Some? ==>
                var id := job.value.id;
                NextToClaim(old(rows), id, now, cfg.stale, skipped)
                && job.value.attempts == old(rows)[id].attempts
                && rows == LockRow(old(rows), id, w, now)
    {
      var best: Option<JobId> := None;
      var todo := rows.Keys - skipped;
      while todo != {}
        invariant todo <= rows.Keys - skipped
        invariant best.None? ==> forall k :: k in rows && k !in skipped && k !in todo ==> !Claimable(rows[k], now, cfg.stale)
        invariant best.Some? ==>
                    best.value in rows && best.value !in skipped && Claimable(rows[best.value], now, cfg.stale)
                    && forall k :: k in rows && k !in skipped && k !in todo && Claimable(rows[k], now, cfg.stale)
                                   ==> rows[best.value].runAt <= rows[k].runAt
        decreases |todo|
      {
        var k :| k in todo;
        todo := todo - {k};
        if Claimable(rows[k], now, cfg.stale) && (best.None? || rows[k].runAt < rows[best.value].runAt) {
          best := Some(k);
        }
      }
      match best {
        case None => job := None;
        case Some(id) =>
          job := Some(ClaimedJob(id, rows[id].attempts));
          rows := rows[id := rows[id].(lockedAt := Some(now), lockedBy := Some(w))];
      }
    }

    method Heartbeat(job: ClaimedJob, w: WorkerId, now: int)
      requires Valid()
      modifies this`rows
      ensures Valid() && rows == RelockRow(old(rows), job.id, w, now)
    {
      if job.id in rows && rows[job.id].lockedBy == Some(w) {
        rows := rows[job.id := rows[job.id].(lockedAt := Some(now))];
      }
    }

    /** A claimed job from its start to its end: heartbeats until the handler returns, then
        the statement that records the outcome. */
    method Execute(job: ClaimedJob, w: WorkerId, beats: seq<Beat>, failure: Option<string>, end: Beat)
      requires Valid()
      modifies this`rows
      ensures Valid()
      ensures var before := Beaten(old(rows), job.id, w, beats);
              rows == if !end.stored then before
                      else if failure.None? then DeleteRow(before, job.id)
                      else FailRow(before, job.id, job.attempts + 1, failure.value, end.now,
                                   Backoff(cfg.backoffBase, job.attempts + 1))
    {
      var i := 0;
      while i < |beats|
        invariant 0 <= i <= |beats| && Valid()
        invariant Beaten(rows, job.id, w, beats[i..]) == Beaten(old(rows), job.id, w, beats)
      {
        if beats[i].stored { Heartbeat(job, w, beats[i].now); }
        i := i + 1;
      }
      if end.stored { Finish(job, failure, end.now); }
    }

    /** The statement that ends a run: delete on success, record and unlock on failure. */
    method Finish(job: ClaimedJob, failure: Option<string>, now: int)
      requires Valid()
      modifies this`rows
      ensures Valid()
      ensures rows == if failure.None? then DeleteRow(old(rows), job.id)
                      else FailRow(old(rows), job.id, job.attempts + 1, failure.value, now,
                                   Backoff(cfg.backoffBase, job.attempts + 1))
      ensures failure.Some? && job.id in old(rows) && cfg.backoffBase * (job.attempts + 1) <= DURATION_MAX ==>
                rows == old(rows)[job.id := Row(now + cfg.backoffBase * (job.attempts + 1), None, None, job.attempts + 1, failure,
                                                old(rows)[job.id].createdAt)]
    {
      match failure {
        case None => rows := rows - {job.id};
        case Some(error) =>
          var attempts := job.attempts + 1;
          if job.id in rows {
            var row := rows[job.id].(attempts := attempts, lastError := Some(error));
            rows := rows[job.id := row.(lockedAt := None, lockedBy := None, runAt := now + Backoff(cfg.backoffBase, attempts))];
          }
      }
    }
  }
}
