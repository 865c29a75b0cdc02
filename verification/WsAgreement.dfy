/** The reconnecting WebSocket client and the channel set its server connection keeps,
    with subscription frames in flight between them. */
module WsAgreement {
  import opened Text

  type Channel = string
  type Handler = nat

  const MAX_RECONNECT_ATTEMPTS: nat := 10
  const BASE_DELAY_MS: nat := 500
  const MAX_DELAY_MS: nat := 15_000

  datatype Ready = Connecting | Open | Closing

  datatype Socket = Socket(id: nat, ready: Ready)

  datatype Frame = Sub(channel: Channel) | Unsub(channel: Channel)

  // ----- the client ------------------------------------------------------------------

  /** `timer` is the delay of the pending reconnect; `nextId` numbers the sockets created. */
  datatype Client = Client(sock: Option<Socket>, handlers: map<Channel, set<Handler>>, attempts: nat,
                           timer: Option<nat>, closedByUser: bool, nextId: nat)
  {
    predicate IsOpen() { sock.Some? && sock.value.ready == Open }

    function Connect(): Client {
      if sock.Some? || closedByUser then this
      else this.(sock := Some(Socket(nextId, Connecting)), nextId := nextId + 1)
    }

    function ScheduleReconnect(): Client {
      if closedByUser || timer.Some? || handlers == map[] || attempts >= MAX_RECONNECT_ATTEMPTS then this
      else this.(attempts := attempts + 1, timer := Some(Delay(attempts + 1)))
    }

    function Subscribe(c: Channel, h: Handler): Client {
      var hs := if c in handlers then handlers[c] else {};
      this.(handlers := handlers[c := hs + {h}], closedByUser := false).Connect()
    }

    function SentBySubscribe(c: Channel, h: Handler): seq<Frame> {
      if c !in handlers && Subscribe(c, h).IsOpen() then [Sub(c)] else []
    }

    function Unsubscribe(c: Channel, h: Handler): Client {
      if c !in handlers then this
      else if handlers[c] - {h} == {} then this.(handlers := handlers - {c})
      else this.(handlers := handlers[c := handlers[c] - {h}])
    }

    function SentByUnsubscribe(c: Channel, h: Handler): seq<Frame> {
      if c in handlers && handlers[c] - {h} == {} && IsOpen() then [Unsub(c)] else []
    }

    function Close(): Client { this.(closedByUser := true, timer := None, sock := None) }

    function Opened(): Client
      requires sock.Some?
    {
      this.(sock := Some(sock.value.(ready := Open)), attempts := 0)
    }

    function Closed(): Client { this.(sock := None).ScheduleReconnect() }

    function TimerFired(): Client { this.(timer := None).Connect() }
  }

  function Pow2(n: nat): nat { if n == 0 then 1 else 2 * Pow2(n - 1) }

  /** `min(500 * 2^(attempt - 1), 15000)` milliseconds. */
  function Delay(attempt: nat): nat
    requires attempt > 0
  {
    var d := BASE_DELAY_MS * Pow2(attempt - 1);
    if d < MAX_DELAY_MS then d else MAX_DELAY_MS
  }

  // ----- the server --------------------------------------------------------------------

  /** `rejected` remembers the subscriptions that were refused and not withdrawn since. */
  datatype Server = Server(channels: set<Channel>, rejected: set<Channel>)
  {
    function Handle(f: Frame, authorized: bool): Server {
      match f
      case Sub(c) =>
        if authorized then Server(channels + {c}, rejected - {c})
        else if c in channels then this
        else Server(channels, rejected + {c})
      case Unsub(c) => Server(channels - {c}, rejected - {c})
    }

    predicate Forwards(c: Channel) { c in channels }
  }

  // ----- both together ---------------------------------------------------------------------

  /** `attached` are the sockets whose close callback is still the client's. */
  datatype State = State(client: Client, attached: set<nat>, server: Server, inFlight: seq<Frame>)

  datatype Step =
    | Subscribe(c: Channel, h: Handler)
    | Unsubscribe(c: Channel, h: Handler)
    | UserClose
    | SocketOpened(id: nat, order: seq<Channel>)
    | SocketClosing(id: nat)
    | SocketClosed(id: nat)
    | TimerFires
    | Deliver(authorized: bool)

  function Init(): State {
    State(Client(None, map[], 0, None, false, 0), {}, Server({}, {}), [])
  }

  function Subscriptions(order: seq<Channel>): seq<Frame> {
    seq(|order|, i requires 0 <= i < |order| => Sub(order[i]))
  }

  predicate Enabled(s: State, step: Step) {
    match step
    case SocketOpened(id, order) =>
      id in s.attached && s.client.sock.Some? && s.client.sock.value == Socket(id, Connecting)
      && (set c | c in order) == s.client.handlers.Keys
    case SocketClosing(id) => id in s.attached && s.client.sock == Some(Socket(id, Open))
    case SocketClosed(id) => id in s.attached
    case TimerFires => s.client.timer.Some?
    case Deliver(_) => s.inFlight != []
    case _ => true
  }

  /** Creating a socket attaches its callbacks. */
  function WithClient(s: State, client: Client): State {
    s.(client := client, attached := if client.nextId > s.client.nextId then s.attached + {s.client.nextId} else s.attached)
  }

  function Apply(s: State, step: Step): State
    requires Enabled(s, step)
  {
    match step
    case Subscribe(c, h) =>
      WithClient(s, s.client.Subscribe(c, h)).(inFlight := s.inFlight + s.client.SentBySubscribe(c, h))
    case Unsubscribe(c, h) =>
      s.(client := s.client.Unsubscribe(c, h), inFlight := s.inFlight + s.client.SentByUnsubscribe(c, h))
    case UserClose =>
      State(s.client.Close(), if s.client.sock.Some? then s.attached - {s.client.sock.value.id} else s.attached,
            Server({}, {}), [])
    case SocketOpened(id, order) => State(s.client.Opened(), s.attached, Server({}, {}), Subscriptions(order))
    case SocketClosing(id) => s.(client := s.client.(sock := Some(Socket(id, Closing))))
    case SocketClosed(id) => State(s.client.Closed(), s.attached - {id}, Server({}, {}), [])
    case TimerFires => WithClient(s, s.client.TimerFired())
    case Deliver(authorized) => s.(server := s.server.Handle(s.inFlight[0], authorized), inFlight := s.inFlight[1..])
  }

  predicate Allowed(s: State, steps: seq<Step>)
    decreases |steps|
  {
    steps == [] || (Enabled(s, steps[0]) && Allowed(Apply(s, steps[0]), steps[1..]))
  }

  function After(s: State, steps: seq<Step>): State
    requires Allowed(s, steps)
    decreases |steps|
  {
    if steps == [] then s else After(Apply(s, steps[0]), steps[1..])
  }

  ghost predicate Reachable(s: State) {
    exists steps: seq<Step> :: Allowed(Init(), steps) && After(Init(), steps) == s
  }

  // ----- what the frames in flight will do ---------------------------------------------------

  function WithFrame(known: set<Channel>, f: Frame): set<Channel> {
    if f.Sub? then known + {f.channel} else known - {f.channel}
  }

  /** The subscriptions after the frames, had none been refused. */
  function Applied(known: set<Channel>, frames: seq<Frame>): set<Channel> {
    if frames == [] then known
    else WithFrame(Applied(known, frames[..|frames| - 1]), frames[|frames| - 1])
  }

  /** Delivers all frames, each with its own authorization answer. */
  function Drain(server: Server, frames: seq<Frame>, answers: seq<bool>): Server
    requires |answers| == |frames|
    decreases |frames|
  {
    if frames == [] then server else Drain(server.Handle(frames[0], answers[0]), frames[1..], answers[1..])
  }

  predicate Disjoint(server: Server) { server.channels !! server.rejected }

  predicate Agreement(s: State) {
    Disjoint(s.server)
    && (s.client.IsOpen() ==> Applied(s.server.channels + s.server.rejected, s.inFlight) == s.client.handlers.Keys)
    && (s.client.sock.None? || s.client.sock.value.ready == Connecting ==> s.inFlight == [])
  }

  predicate OneSocket(s: State) {
    s.attached == (if s.client.sock.Some? then {s.client.sock.value.id} else {})
    && (s.client.sock.Some? ==> s.client.sock.value.id < s.client.nextId)
  }

  predicate ClientSane(c: Client) {
    (forall k :: k in c.handlers ==> c.handlers[k] != {})
    && c.attempts <= MAX_RECONNECT_ATTEMPTS
    && (c.timer.Some? ==> BASE_DELAY_MS <= c.timer.value <= MAX_DELAY_MS)
    && (c.closedByUser ==> c.sock.None? && c.timer.None?)
    && (c.sock.Some? && c.sock.value.ready != Connecting ==> c.attempts == 0)
  }

  /** A client with handlers that the user did not close is connected, about to reconnect,
      or out of attempts. */
  predicate NotForgotten(c: Client) {
    c.handlers != map[] && !c.closedByUser ==> c.sock.Some? || c.timer.Some? || c.attempts == MAX_RECONNECT_ATTEMPTS
  }

  predicate Inv(s: State) {
    Agreement(s) && OneSocket(s) && ClientSane(s.client) && NotForgotten(s.client)
  }

  lemma AppliedSnoc(known: set<Channel>, frames: seq<Frame>, f: Frame)
    ensures Applied(known, frames + [f]) == WithFrame(Applied(known, frames), f)
  {
    assert (frames + [f])[..|frames|] == frames;
  }

  lemma {:induction false} AppliedCons(known: set<Channel>, f: Frame, frames: seq<Frame>)
    ensures Applied(known, [f] + frames) == Applied(WithFrame(known, f), frames)
  {
    if frames == [] {
      assert [f] + frames == [] + [f];
      AppliedSnoc(known, [], f);
    } else {
      var n := |frames| - 1;
      assert ([f] + frames)[..n + 1] == [f] + frames[..n];
      AppliedCons(known, f, frames[..n]);
    }
  }

  lemma {:induction false} SubscriptionsApplied(order: seq<Channel>)
    ensures Applied({}, Subscriptions(order)) == (set c | c in order)
  {
    if order != [] {
      var n := |order| - 1;
      SubscriptionsApplied(order[..n]);
      assert Subscriptions(order)[..n] == Subscriptions(order[..n]);
      assert order == order[..n] + [order[n]];
    }
  }

  lemma HandleKnown(server: Server, f: Frame, authorized: bool)
    requires Disjoint(server)
    ensures var t := server.Handle(f, authorized);
            Disjoint(t)
            && t.channels + t.rejected == WithFrame(server.channels + server.rejected, f)
  {
  }

  lemma {:induction false} DelayBounds(attempt: nat)
    requires attempt > 0
    ensures BASE_DELAY_MS <= Delay(attempt) <= MAX_DELAY_MS
  {
    Pow2Positive(attempt - 1);
  }

  lemma {:induction false} Pow2Positive(n: nat)
    ensures Pow2(n) >= 1
  {
    if n > 0 { Pow2Positive(n - 1); }
  }

  lemma AgreementSubscribe(s: State, c: Channel, h: Handler)
    requires Agreement(s) && OneSocket(s)
    ensures Agreement(Apply(s, Subscribe(c, h)))
  {
    AppliedSnoc(s.server.channels + s.server.rejected, s.inFlight, Sub(c));
    assert s.client.Subscribe(c, h).handlers.Keys == s.client.handlers.Keys + {c};
    assert s.inFlight + [] == s.inFlight;
  }

  lemma AgreementUnsubscribe(s: State, c: Channel, h: Handler)
    requires Agreement(s) && OneSocket(s)
    ensures Agreement(Apply(s, Unsubscribe(c, h)))
  {
    AppliedSnoc(s.server.channels + s.server.rejected, s.inFlight, Unsub(c));
    var client := s.client.Unsubscribe(c, h);
    if c in s.client.handlers && s.client.handlers[c] - {h} == {} {
      assert client.handlers.Keys == s.client.handlers.Keys - {c};
    } else {
      assert client.handlers.Keys == s.client.handlers.Keys;
    }
    assert s.inFlight + [] == s.inFlight;
  }

  lemma AgreementDeliver(s: State, authorized: bool)
    requires Agreement(s) && OneSocket(s) && s.inFlight != []
    ensures Agreement(Apply(s, Deliver(authorized)))
  {
    HandleKnown(s.server, s.inFlight[0], authorized);
    AppliedCons(s.server.channels + s.server.rejected, s.inFlight[0], s.inFlight[1..]);
    assert s.inFlight == [s.inFlight[0]] + s.inFlight[1..];
  }

  lemma AgreementStep(s: State, step: Step)
    requires Agreement(s) && OneSocket(s) && Enabled(s, step)
    ensures Agreement(Apply(s, step))
  {
    match step {
      case Subscribe(c, h) => AgreementSubscribe(s, c, h);
      case Unsubscribe(c, h) => AgreementUnsubscribe(s, c, h);
      case SocketOpened(id, order) =>
        SubscriptionsApplied(order);
        var none := Server({}, {});
        assert none.channels + none.rejected == {};
      case Deliver(authorized) => AgreementDeliver(s, authorized);
      case _ =>
    }
  }

  lemma InvStep(s: State, step: Step)
    requires Inv(s) && Enabled(s, step)
    ensures Inv(Apply(s, step))
  {
    AgreementStep(s, step);
    DelayBounds(s.client.attempts + 1);
  }

  lemma {:induction false} InvAlong(s: State, steps: seq<Step>)
    requires Inv(s) && Allowed(s, steps)
    ensures Inv(After(s, steps))
    decreases |steps|
  {
    if steps != [] {
      InvStep(s, steps[0]);
      InvAlong(Apply(s, steps[0]), steps[1..]);
    }
  }

  lemma ReachableInv(s: State)
    requires Reachable(s)
    ensures Inv(s)
  {
    var steps :| Allowed(Init(), steps) && After(Init(), steps) == s;
    InvAlong(Init(), steps);
  }

  lemma {:induction false} DrainKnown(server: Server, frames: seq<Frame>, answers: seq<bool>)
    requires |answers| == |frames| && Disjoint(server)
    ensures var t := Drain(server, frames, answers);
            Disjoint(t) && t.channels + t.rejected == Applied(server.channels + server.rejected, frames)
    decreases |frames|
  {
    if frames != [] {
      HandleKnown(server, frames[0], answers[0]);
      DrainKnown(server.Handle(frames[0], answers[0]), frames[1..], answers[1..]);
      AppliedCons(server.channels + server.rejected, frames[0], frames[1..]);
      assert frames == [frames[0]] + frames[1..];
    }
  }

  /** With the socket open, once the frames in flight have arrived - whatever the server
      answers - the server's set is the client's channels without those it refused, and it
      forwards an event exactly if the client has handlers for it and was not refused. */
  lemma SubscriptionsAgree(s: State, answers: seq<bool>)
    requires Reachable(s) && s.client.IsOpen() && |answers| == |s.inFlight|
    ensures var t := Drain(s.server, s.inFlight, answers);
            t.channels == s.client.handlers.Keys - t.rejected
            && t.rejected <= s.client.handlers.Keys
            && forall c :: t.Forwards(c) <==> c in s.client.handlers && c !in t.rejected
  {
    ReachableInv(s);
    DrainKnown(s.server, s.inFlight, answers);
  }

  /** Every answer in the run says whether the channel is in a fixed set. */
  predicate AnswersFollow(s: State, steps: seq<Step>, allowed: set<Channel>)
    requires Allowed(s, steps)
    decreases |steps|
  {
    steps == []
    || ((steps[0].Deliver? ==> (steps[0].authorized <==> s.inFlight[0].channel in allowed))
        && AnswersFollow(Apply(s, steps[0]), steps[1..], allowed))
  }

  lemma {:induction false} StableAnswersSplit(s: State, steps: seq<Step>, allowed: set<Channel>)
    requires Allowed(s, steps) && AnswersFollow(s, steps, allowed)
    requires s.server.channels <= allowed && s.server.rejected !! allowed
    ensures After(s, steps).server.channels <= allowed && After(s, steps).server.rejected !! allowed
    decreases |steps|
  {
    if steps != [] { StableAnswersSplit(Apply(s, steps[0]), steps[1..], allowed); }
  }

  /** If the server's answers do not change over time, nothing in flight means that its set
      is exactly the allowed part of the client's channels. */
  lemma QuietMeansExact(steps: seq<Step>, allowed: set<Channel>)
    requires Allowed(Init(), steps) && AnswersFollow(Init(), steps, allowed)
    ensures var s := After(Init(), steps);
            s.client.IsOpen() && s.inFlight == [] ==> s.server.channels == s.client.handlers.Keys * allowed
  {
    StableAnswersSplit(Init(), steps, allowed);
    InvAlong(Init(), steps);
  }

  /** At most one socket can call back, and it is the current one; handler sets are never
      empty; attempts and delays are bounded; the client does not give up early. */
  lemma ClientInvariants(s: State)
    requires Reachable(s)
    ensures s.attached == (if s.client.sock.Some? then {s.client.sock.value.id} else {})
    ensures forall c :: c in s.client.handlers ==> s.client.handlers[c] != {}
    ensures s.client.attempts <= 10
    ensures s.client.timer.Some? ==> 500 <= s.client.timer.value <= 15_000
    ensures s.client.handlers != map[] && !s.client.closedByUser ==>
              s.client.sock.Some? || s.client.timer.Some? || s.client.attempts == 10
    ensures s.client.closedByUser ==> s.client.sock.None? && s.client.timer.None?
  {
    ReachableInv(s);
  }

  // ----- what the client does ---------------------------------------------------------------------

  /** A subscription adds its handler to its channel and nothing else, cancels a close by the
      user, connects if there is no socket, and sends a frame only for a new channel on an open
      socket. */
  lemma SubscribeExact(cl: Client, c: Channel, h: Handler)
    ensures var t := cl.Subscribe(c, h);
            && (forall k, x :: k in t.handlers && x in t.handlers[k] <==> (k == c && x == h) || (k in cl.handlers && x in cl.handlers[k]))
            && t.handlers.Keys == cl.handlers.Keys + {c}
            && !t.closedByUser && t.attempts == cl.attempts && t.timer == cl.timer
            && t.sock == (if cl.sock.Some? then cl.sock else Some(Socket(cl.nextId, Connecting)))
            && t.nextId == (if cl.sock.Some? then cl.nextId else cl.nextId + 1)
    ensures cl.SentBySubscribe(c, h)
            == if c !in cl.handlers && cl.sock.Some? && cl.sock.value.ready == Open then [Sub(c)] else []
  {
  }

  /** Ending a subscription removes its handler and no other; the channel goes with its last
      handler, and only then a frame is sent. */
  lemma UnsubscribeExact(cl: Client, c: Channel, h: Handler)
    requires forall k :: k in cl.handlers ==> cl.handlers[k] != {}
    ensures var t := cl.Unsubscribe(c, h);
            var last := c in cl.handlers && forall x :: x in cl.handlers[c] ==> x == h;
            && (forall k, x :: k in t.handlers && x in t.handlers[k] <==> k in cl.handlers && x in cl.handlers[k] && !(k == c && x == h))
            && t.handlers.Keys == (if last then cl.handlers.Keys - {c} else cl.handlers.Keys)
            && t.(handlers := cl.handlers) == cl
            && cl.SentByUnsubscribe(c, h) == if last && cl.sock.Some? && cl.sock.value.ready == Open then [Unsub(c)] else []
  {
    if c in cl.handlers {
      var rest := cl.handlers[c] - {h};
      assert rest == {} <==> forall x :: x in cl.handlers[c] ==> x == h by {
        forall x | x in cl.handlers[c] && rest == {} ensures x == h { assert x !in rest; }
      }
    }
  }

  /** Waiting times double from half a second to 15 seconds. */
  lemma DelayTable(attempt: nat)
    requires attempt > 0
    ensures Delay(attempt) == if attempt == 1 then 500 else if attempt == 2 then 1000 else if attempt == 3 then 2000
                              else if attempt == 4 then 4000 else if attempt == 5 then 8000 else 15_000
  {
    if attempt >= 6 {
      assert Pow2(5) == 32;
      Pow2Grows(5, attempt - 1);
    } else {
      assert Pow2(0) == 1 && Pow2(1) == 2 && Pow2(2) == 4 && Pow2(3) == 8 && Pow2(4) == 16;
    }
  }

  lemma {:induction false} Pow2Grows(a: nat, b: nat)
    requires a <= b
    ensures Pow2(a) <= Pow2(b)
    decreases b - a
  {
    if a < b { Pow2Grows(a, b - 1); }
  }

  /** `n` times the connection is lost before it opens, and the timer starts the next one. */
  function Retried(cl: Client, n: nat): Client {
    if n == 0 then cl else Retried(cl, n - 1).Closed().TimerFired()
  }

  /** Since the last open connection, the next loss starts a timer with the next delay for ten
      times, and none after that; a new connection starts over. */
  lemma {:induction false} RetriesTenTimes(cl: Client, n: nat)
    requires cl.sock.Some? && cl.attempts == 0 && cl.timer.None? && !cl.closedByUser && cl.handlers != map[] && n <= 10
    ensures var t := Retried(cl, n);
            && t.sock.Some? && t.attempts == n && t.timer.None? && t.handlers == cl.handlers && !t.closedByUser
            && t.nextId == cl.nextId + n && (n > 0 ==> t.sock == Some(Socket(t.nextId - 1, Connecting)))
            && t.Closed().sock.None? && t.Closed().timer == (if n < 10 then Some(Delay(n + 1)) else None)
            && t.Opened().IsOpen() && t.Opened().attempts == 0 && t.Opened().sock.value.id == t.sock.value.id
            && t.Opened().handlers == t.handlers && t.Opened().timer.None? && !t.Opened().closedByUser
    decreases n
  {
    if n > 0 { RetriesTenTimes(cl, n - 1); }
  }

  /** No reconnect is started twice, without handlers, or against the user's close, and closing
      drops socket and timer but no handler. */
  lemma QuietClients(cl: Client)
    ensures cl.closedByUser || cl.timer.Some? || cl.handlers == map[] || cl.attempts >= 10 ==> cl.Closed() == cl.(sock := None)
    ensures cl.Close() == cl.(closedByUser := true, timer := None, sock := None)
    ensures cl.closedByUser || cl.sock.Some? ==> cl.TimerFired() == cl.(timer := None)
  {
  }

  // ----- a connection that drops is restored --------------------------------------------------------

  lemma {:induction false} AllInOrder(channels: set<Channel>) returns (order: seq<Channel>)
    ensures forall c :: c in order <==> c in channels
    decreases |channels|
  {
    if channels == {} {
      order := [];
    } else {
      var c :| c in channels;
      var rest := AllInOrder(channels - {c});
      order := [c] + rest;
    }
  }

  lemma Prepend(s: State, step: Step, steps: seq<Step>)
    requires Enabled(s, step) && Allowed(Apply(s, step), steps)
    ensures Allowed(s, [step] + steps) && After(s, [step] + steps) == After(Apply(s, step), steps)
  {
    assert ([step] + steps)[1..] == steps;
  }

  /** Every frame in flight arrives, and every subscription is granted. */
  lemma {:induction false} DeliverAll(s: State) returns (steps: seq<Step>)
    requires s.server.rejected == {}
    ensures Allowed(s, steps)
    ensures var t := After(s, steps);
            && t.client == s.client && t.inFlight == [] && t.server.rejected == {}
            && t.server.channels == Applied(s.server.channels, s.inFlight)
    decreases |s.inFlight|
  {
    if s.inFlight == [] {
      steps := [];
    } else {
      var t := Apply(s, Deliver(true));
      HandleKnown(s.server, s.inFlight[0], true);
      AppliedCons(s.server.channels, s.inFlight[0], s.inFlight[1..]);
      assert s.inFlight == [s.inFlight[0]] + s.inFlight[1..];
      var rest := DeliverAll(t);
      Prepend(s, Deliver(true), rest);
      steps := [Deliver(true)] + rest;
    }
  }

  predicate Restored(s: State, t: State) {
    && t.client.IsOpen() && t.inFlight == [] && t.client.handlers == s.client.handlers
    && t.server.channels == s.client.handlers.Keys
  }

  lemma Opening(s: State) returns (steps: seq<Step>)
    requires Inv(s) && s.client.sock.Some? && s.client.sock.value.ready == Connecting
    ensures Allowed(s, steps) && Restored(s, After(s, steps))
  {
    var order := AllInOrder(s.client.handlers.Keys);
    assert (set c | c in order) == s.client.handlers.Keys;
    var step := SocketOpened(s.client.sock.value.id, order);
    var t := Apply(s, step);
    SubscriptionsApplied(order);
    var rest := DeliverAll(t);
    Prepend(s, step, rest);
    steps := [step] + rest;
  }

  lemma Reconnecting(s: State) returns (steps: seq<Step>)
    requires Inv(s) && s.client.sock.None? && s.client.timer.Some?
    ensures Allowed(s, steps) && Restored(s, After(s, steps))
  {
    InvStep(s, TimerFires);
    var rest := Opening(Apply(s, TimerFires));
    Prepend(s, TimerFires, rest);
    steps := [TimerFires] + rest;
  }

  /** From every reachable state in which the client has handlers and has neither been closed
      by the user nor given up, losing the connection and connecting again can bring the server
      to exactly the client's channels. */
  lemma AlwaysRestorable(s: State) returns (steps: seq<Step>)
    requires Reachable(s) && s.client.handlers != map[] && (s.client.sock.Some? || s.client.timer.Some?)
    ensures Allowed(s, steps) && Restored(s, After(s, steps))
  {
    ReachableInv(s);
    if s.client.sock.None? {
      steps := Reconnecting(s);
    } else if s.client.sock.value.ready == Connecting {
      steps := Opening(s);
    } else {
      var step := SocketClosed(s.client.sock.value.id);
      InvStep(s, step);
      var rest := Reconnecting(Apply(s, step));
      Prepend(s, step, rest);
      steps := [step] + rest;
    }
  }

  // ----- the code ---------------------------------------------------------------------------------

  /** The client object; `sent` collects what it writes to the current socket. */
  class WsClient {
    var sock: Option<Socket>
    var handlers: map<Channel, set<Handler>>
    var reconnectAttempts: nat
    var reconnectTimer: Option<nat>
    var closedByUser: bool
    var created: nat
    var sent: seq<Frame>

    ghost function View(): Client reads this {
      Client(sock, handlers, reconnectAttempts, reconnectTimer, closedByUser, created)
    }

    constructor ()
      ensures View() == Init().client && sent == []
      ensures sock.None? && handlers == map[] && reconnectAttempts == 0 && reconnectTimer.None? && !closedByUser && created == 0
    {
      sock, handlers, reconnectAttempts, reconnectTimer := None, map[], 0, None;
      closedByUser, created, sent := false, 0, [];
    }

    method Connect()
      modifies this
      ensures View() == old(View()).Connect() && sent == old(sent)
    {
      if sock.Some? || closedByUser { return; }
      sock := Some(Socket(created, Connecting));
      created := created + 1;
    }

    method Subscribe(c: Channel, h: Handler)
      modifies this
      ensures View() == old(View()).Subscribe(c, h)
      ensures sent == old(sent) + old(View()).SentBySubscribe(c, h)
    {
      var isNewChannel := c !in handlers;
      if isNewChannel { handlers := handlers[c := {}]; }
      handlers := handlers[c := handlers[c] + {h}];
      closedByUser := false;
      Connect();
      if isNewChannel && sock.Some? && sock.value.ready == Open { sent := sent + [Sub(c)]; }
    }

    /** The function that `subscribe` returns. */
    method Unsubscribe(c: Channel, h: Handler)
      modifies this
      ensures View() == old(View()).Unsubscribe(c, h)
      ensures sent == old(sent) + old(View()).SentByUnsubscribe(c, h)
    {
      if c !in handlers { return; }
      handlers := handlers[c := handlers[c] - {h}];
      if handlers[c] == {} {
        handlers := handlers - {c};
        if sock.Some? && sock.value.ready == Open { sent := sent + [Unsub(c)]; }
      }
    }

    method Close()
      modifies this
      ensures View() == old(View()).Close() && sent == old(sent)
    {
      closedByUser := true;
      if reconnectTimer.Some? { reconnectTimer := None; }
      sock := None;
    }

    /** The open callback, iterating over the channels in the order of the handler map. */
    method OnOpen(order: seq<Channel>)
      requires sock.Some?
      modifies this
      ensures View() == old(View()).Opened()
      ensures sent == old(sent) + Subscriptions(order)
    {
      sock := Some(sock.value.(ready := Open));
      reconnectAttempts := 0;
      for i := 0 to |order|
        invariant View() == old(View()).Opened()
        invariant sent == old(sent) + Subscriptions(order[..i])
      {
        assert Subscriptions(order[..i + 1]) == Subscriptions(order[..i]) + [Sub(order[i])];
        sent := sent + [Sub(order[i])];
      }
      assert order[..|order|] == order;
    }

    method ScheduleReconnect()
      modifies this
      ensures View() == old(View()).ScheduleReconnect() && sent == old(sent)
    {
      if closedByUser || reconnectTimer.Some? { return; }
      if handlers == map[] { return; }
      if reconnectAttempts >= MAX_RECONNECT_ATTEMPTS { return; }
      reconnectAttempts := reconnectAttempts + 1;
      reconnectTimer := Some(Delay(reconnectAttempts));
    }

    method OnClose()
      modifies this
      ensures View() == old(View()).Closed() && sent == old(sent)
    {
      sock := None;
      ScheduleReconnect();
    }

    method OnTimer()
      modifies this
      ensures View() == old(View()).TimerFired() && sent == old(sent)
    {
      reconnectTimer := None;
      Connect();
    }
  }

  /** One server connection; the answer of the ownership lookup is a parameter. */
  class Connection {
    var channels: set<Channel>

    constructor ()
      ensures channels == {}
    {
      channels := {};
    }

    method Handle(f: Frame, authorized: bool) returns (refused: bool)
      modifies this
      ensures channels == Server(old(channels), {}).Handle(f, authorized).channels
      ensures refused <==> f.Sub? && !authorized
    {
      refused := false;
      match f {
        case Sub(c) =>
          if authorized { channels := channels + {c}; } else { refused := true; }
        case Unsub(c) => channels := channels - {c};
      }
    }
  }
}
