/** The life of a deployment's status. */
module Deployment {
  datatype Status = Queued | InProgress | Finished | Failed | Cancelled

  predicate Terminal(s: Status) { s.Finished? || s.Failed? || s.Cancelled? }

  predicate CanTransition(from: Status, to: Status) {
    || (from.Queued? && (to.InProgress? || to.Cancelled?))
    || (from.InProgress? && (to.Finished? || to.Failed? || to.Cancelled?))
  }

  /** The moves: a queued deployment starts, one that runs ends, and either is cancelled. */
  lemma TransitionsExact(from: Status, to: Status)
    ensures CanTransition(from, to) <==>
              || (from == Queued && to == InProgress)
              || (from == InProgress && (to == Finished || to == Failed))
              || ((from == Queued || from == InProgress) && to == Cancelled)
    ensures Terminal(from) <==> from != Queued && from != InProgress
  {
  }

  /** One move of the stored status, by the engine that runs the deployment or by others. */
  datatype Change = Change(from: Status, to: Status, own: bool)

  /** The moves follow the legal edges, each from where the one before it led. */
  ghost predicate Chain(history: seq<Change>, status: Status) {
    && (forall i :: 0 <= i < |history| ==> CanTransition(history[i].from, history[i].to))
    && (forall i :: 0 < i < |history| ==> history[i].from == history[i - 1].to)
    && (|history| > 0 ==> history[|history| - 1].to == status)
  }

  function OwnMoves(history: seq<Change>): seq<Status> {
    if |history| == 0 then []
    else
      var last := history[|history| - 1];
      OwnMoves(history[..|history| - 1]) + (if last.own then [last.to] else [])
  }

  lemma ChainGrows(history: seq<Change>, status: Status, change: Change)
    requires Chain(history, status) && change.from == status && CanTransition(change.from, change.to)
    ensures Chain(history + [change], change.to)
  {
  }

  lemma OwnMovesGrow(history: seq<Change>, change: Change)
    ensures OwnMoves(history + [change]) == OwnMoves(history) + (if change.own then [change.to] else [])
  {
    assert (history + [change])[..|history|] == history;
  }

  /** Nothing follows a terminal status, and two moves are all there can be. */
  lemma TerminalIsLast(history: seq<Change>, status: Status)
    requires Chain(history, status)
    ensures forall i :: 0 <= i < |history| && Terminal(history[i].to) ==> i == |history| - 1
    ensures |history| <= 2
  {
    forall i | 0 <= i < |history| - 1 ensures !Terminal(history[i].to) {
      assert history[i + 1].from == history[i].to;
    }
    assert |history| > 1 ==> Terminal(history[1].to) by {
      assert |history| > 0 ==> CanTransition(history[0].from, history[0].to);
    }
  }
}

/** A deployment run: claim, build steps, rolling update with a health gate, clean-up and
    the final status. The database, the shutdown token and the servers answer as they like. */
module DeployEngine {
  import opened Text
  import opened Deployment

  // ----- the outside world -------------------------------------------------------------

  /** A container with what the engine and Docker Compose select it by. */
  datatype Container = Container(id: nat, app: string, pr: int, managed: bool, project: string)

  type Containers = map<string, Container>

  datatype Command =
    | Work
    | Up(removeOrphans: bool)
    | Inspect
    | Logs
    | List
    | Remove(names: set<string>)

  /** What happens outside before one database query: the shutdown token, a move of the
      status by another party, and whether the query succeeds. */
  datatype Answer = Answer(shutdown: bool, other: Option<Status>, db: bool)

  /** How one dispatched command goes: cancellation polls while it runs, a broken
      connection, its exit code and output, whether a failing `up` created the container
      all the same, and the containers that a listing or a removal misses. */
  datatype Reply = Reply(polls: nat, broken: bool, exit: int, stdout: string, created: bool, missed: set<string>)

  datatype Env = Env(answers: nat -> Answer, replies: nat -> Reply)

  /** A dispatched command and the containers after it. */
  datatype Moment = Moment(command: Command, reply: Reply, after: Containers)

  /** The stored status with its moves, the broadcast ones, the containers of the deploy
      server, the commands dispatched by `exec_step`, how many there were at each removal of
      the build helper, and whether the application has been marked as running. */
  datatype World = World(
    clock: nat, shutdown: bool, status: Status, history: seq<Change>, events: seq<Status>,
    containers: Containers, log: seq<Moment>, cleanups: seq<nat>, running: bool)

  datatype Error = Aborted | Db | Exec | Build | Unhealthy
  datatype Result<T> = Ok(value: T) | Err(error: Error)

  /** One deployment: its application and pull request, the container name, and the
      settings that the rolling update reads. */
  datatype Job = Job(app: string, pr: int, name: string, health: bool, retries: int,
                     ports: Option<string>, options: Option<string>)

  /** A legal history whose own moves are exactly the broadcast ones. */
  ghost predicate Sound(w: World) { Chain(w.history, w.status) && OwnMoves(w.history) == w.events }

  /** `v` comes after `w`: nothing recorded is rewritten and nothing terminal is left. */
  ghost predicate Follows(w: World, v: World) {
    && w.log <= v.log && v.cleanups == w.cleanups && v.running == w.running
    && w.history <= v.history
    && (w.shutdown ==> v.shutdown)
    && (Terminal(w.status) ==> v.status == w.status)
    && (w.status != Queued ==> v.status != Queued)
    && (Sound(w) ==> Sound(v))
  }

  /** The cancellation that `check_cancel` looks for. Once there, it stays. */
  predicate Cancelling(w: World) { w.shutdown || w.status == Cancelled }

  // ----- the database --------------------------------------------------------------------

  function Move(w: World, to: Status, own: bool): (v: World)
    requires CanTransition(w.status, to)
    ensures Follows(w, v)
  {
    hide Chain, OwnMoves;
    var change := Change(w.status, to, own);
    var v := w.(status := to, history := w.history + [change], events := if own then w.events + [to] else w.events);
    assert Chain(w.history, w.status) ==> Chain(v.history, v.status) by {
      if Chain(w.history, w.status) { ChainGrows(w.history, w.status, change); }
    }
    OwnMovesGrow(w.history, change);
    v
  }

  function Tick(w: World, env: Env): (v: World)
    ensures Follows(w, v) && v.containers == w.containers && v.log == w.log && v.events == w.events
  {
    var a := env.answers(w.clock);
    var v := w.(clock := w.clock + 1, shutdown := w.shutdown || a.shutdown);
    if a.other.Some? && CanTransition(v.status, a.other.value) then Move(v, a.other.value, false) else v
  }

  function CheckCancel(w: World, env: Env): (r: (World, Option<Error>))
    ensures Follows(w, r.0) && r.0.containers == w.containers && r.0.log == w.log
    ensures Cancelling(w) ==> r.1.Some?
    ensures r.1 == Some(Aborted) ==> Cancelling(r.0)
    ensures r.1 in {None, Some(Aborted), Some(Db)}
  {
    var v := Tick(w, env);
    (v, if v.shutdown then Some(Aborted)
        else if !env.answers(w.clock).db then Some(Db)
        else if v.status == Cancelled then Some(Aborted)
        else None)
  }

  /** Which answer a check gives: the shutdown token goes before a failing query, and that before
      the status. */
  lemma CheckCancelExact(w: World, env: Env)
    ensures var a := env.answers(w.clock);
            var (v, e) := CheckCancel(w, env);
            && (v.shutdown <==> w.shutdown || a.shutdown) && v.clock == w.clock + 1
            && v.status == (if a.other.Some? && CanTransition(w.status, a.other.value) then a.other.value else w.status)
            && (e == Some(Aborted) <==> w.shutdown || a.shutdown || (a.db && v.status == Cancelled))
            && (e == Some(Db) <==> !w.shutdown && !a.shutdown && !a.db)
  {
  }

  /** A status move with its broadcast; a failed query moves nothing. */
  function SetStatus(w: World, env: Env, to: Status): (r: (World, Result<bool>))
    ensures Follows(w, r.0) && r.0.containers == w.containers && r.0.log == w.log
    ensures r.1 == Ok(true) ==> r.0.status == to && r.0.events == w.events + [to]
    ensures r.1 != Ok(true) ==> r.0.events == w.events
    ensures r.1.Ok? && w.status != Queued && Terminal(to) ==> Terminal(r.0.status)
  {
    var v := Tick(w, env);
    if !env.answers(w.clock).db then (v, Err(Db))
    else if CanTransition(v.status, to) then (Move(v, to, true), Ok(true))
    else (v, Ok(false))
  }

  // ----- commands ---------------------------------------------------------------------------

  /** The containers that the label filters and the managed label select. */
  predicate Mine(d: Job, c: Container) { c.app == d.app && c.pr == d.pr && c.managed }

  function Fresh(d: Job, id: nat): Container { Container(id, d.app, d.pr, true, d.app) }

  /** A container that Compose takes for an orphan: another one of the same project. */
  predicate Orphan(d: Job, n: string, c: Container) { c.project == d.app && n != d.name }

  function Effect(d: Job, c: Command, cs: Containers, reply: Reply, id: nat): Containers {
    match c
    case Up(removeOrphans) =>
      var kept := map n | n in cs && (removeOrphans && Orphan(d, n, cs[n]) ==> n in reply.missed) :: cs[n];
      if reply.exit == 0 || reply.created then kept[d.name := Fresh(d, id)] else kept
    case Remove(names) => map n | n in cs && (n in names ==> n in reply.missed) :: cs[n]
    case _ => cs
  }

  /** The names that a listing prints. */
  function Listed(d: Job, cs: Containers, reply: Reply): set<string> {
    set n | n in cs && Mine(d, cs[n]) && n !in reply.missed
  }

  function Dispatch(w: World, env: Env, d: Job, c: Command): (v: World)
    ensures Follows(w, v)
  {
    var reply := env.replies(|w.log|);
    var after := Effect(d, c, w.containers, reply, |w.log|);
    w.(containers := after, log := w.log + [Moment(c, reply, after)])
  }

  /** The cancellation checks while a command runs, up to the one that fails. */
  function Polls(w: World, env: Env, n: nat): (r: (World, Option<Error>))
    ensures Follows(w, r.0) && r.0.containers == w.containers && r.0.log == w.log
    ensures r.1 == Some(Aborted) ==> Cancelling(r.0)
    ensures r.1 in {None, Some(Aborted), Some(Db)}
    decreases n
  {
    hide Sound, CheckCancel;
    if n == 0 then (w, None)
    else
      var (v, e) := CheckCancel(w, env);
      if e.Some? then (v, e) else Polls(v, env, n - 1)
  }

  /** Either nothing was dispatched, or exactly the command `c` with its effect. */
  ghost predicate OneCommand(w: World, v: World, env: Env, d: Job, c: Command) {
    var reply := env.replies(|w.log|);
    && v.log == w.log + [Moment(c, reply, v.containers)]
    && v.containers == Effect(d, c, w.containers, reply, |w.log|)
  }

  ghost predicate Untouched(w: World, v: World) { v.log == w.log && v.containers == w.containers }

  function ExecStep(w: World, env: Env, d: Job, c: Command, allowFailure: bool): (r: (World, Result<Reply>))
    ensures Follows(w, r.0)
    ensures Untouched(w, r.0) || OneCommand(w, r.0, env, d, c)
    ensures r.1.Ok? ==> OneCommand(w, r.0, env, d, c) && r.1.value == env.replies(|w.log|) && (allowFailure || r.1.value.exit == 0)
    ensures CheckCancel(w, env).1.None? ==> OneCommand(w, r.0, env, d, c)
    ensures CheckCancel(w, env).1.Some? ==> r == (CheckCancel(w, env).0, Err(CheckCancel(w, env).1.value)) && Untouched(w, r.0)
    ensures Cancelling(w) ==> r.1.Err? && Untouched(w, r.0)
    ensures r.1 == Err(Aborted) ==> Cancelling(r.0)
    ensures r.1 != Err(Error.Unhealthy)
  {
    hide Sound, CheckCancel, Polls;
    var (v, e) := CheckCancel(w, env);
    if e.Some? then (v, Err(e.value))
    else
      var u := Dispatch(v, env, d, c);
      var reply := env.replies(|v.log|);
      var (x, e) := Polls(u, env, reply.polls);
      if e.Some? then (x, Err(e.value))
      else if reply.broken then (x, Err(Exec))
      else if !allowFailure && reply.exit != 0 then (x, Err(Build))
      else (x, Ok(reply))
  }
}
