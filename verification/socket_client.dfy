/**
  `WebSocketClientBase` (`utils/websocket_client.ts`): a reconnecting socket client.

  The browser socket is reduced to its ready state, the two timers to armed/disarmed flags,
  and the retry strategy to an attempt counter whose delays come from a `schedule`
  parameter (`reconnectStrategy.next()` returns `schedule(attempt)` and advances the
  counter; `reset()` sets it back to zero). Each handler returns the new client state and
  the effects it causes, in order.
 */
module SocketClient {
  import opened Wrappers

  /** `WebSocket.readyState`. */
  datatype ReadyState = Connecting | Open | Closing | Closed

  /**
    The client's fields. `socket` is `None` before the first `connect`; `strategy` is
    `None` when the client has no reconnect strategy, otherwise the number of `next()`
    calls since the last `reset()`.
   */
  datatype Client<D> = Client(
    socket: Option<ReadyState>,
    openTimes: nat,
    closeNormally: bool,
    heartbeatArmed: bool,
    reconnectArmed: bool,
    buffer: seq<D>,
    strategy: Option<nat>)

  /** A freshly constructed client. */
  function Initial<D>(hasStrategy: bool): (c: Client<D>)
    ensures c.socket.None? && c.buffer == [] && !c.closeNormally
    ensures !c.heartbeatArmed && !c.reconnectArmed
  {
    Client(None, 0, false, false, false, [], if hasStrategy then Some(0) else None)
  }

  /** What a handler does to the outside world. */
  datatype Effect<D> =
    | Transmit(data: D)          // socket.send(data)
    | CloseSocket(code: int)     // socket.close(code, "closeByClient")
    | WillReconnect(delayMs: int) // onWillReconnect(delay)
    | Connected                  // onConnected()
    | Dispose                    // onDispose()
    | HeartbeatTick              // onHeartbeatTick()

  datatype Step<D> = Step(client: Client<D>, effects: seq<Effect<D>>)

  /** The close codes treated as a deliberate close. */
  predicate CleanCode(code: int) {
    code == 1000 || code == 1001 || code == 1002 || code == 1003
  }

  /** `reconnectStrategy?.reset()`. */
  function ResetStrategy(s: Option<nat>): (r: Option<nat>)
    ensures r.Some? <==> s.Some?
    ensures r.Some? ==> r.value == 0
  {
    if s.Some? then Some(0) else None
  }

  /** One `Transmit` per item, in order. */
  function Transmits<D>(items: seq<D>): (r: seq<Effect<D>>)
    ensures |r| == |items|
    ensures forall i :: 0 <= i < |items| ==> r[i] == Transmit(items[i])
  {
    seq(|items|, i requires 0 <= i < |items| => Transmit(items[i]))
  }

  /**
    `connect()`: zeroes `openTimes` and, when the socket can be constructed (`built`),
    replaces the socket by a new connecting one; a constructor failure is only logged.
   */
  function Connect<D>(c: Client<D>, built: bool): (r: Step<D>)
    ensures r.client.openTimes == 0 && r.effects == []
    ensures r.client.socket == (if built then Some(Connecting) else c.socket)
    ensures r.client == c.(openTimes := 0, socket := r.client.socket)
  {
    Step(c.(openTimes := 0, socket := if built then Some(Connecting) else c.socket), [])
  }

  /**
    `onopen` followed by `onConnectedInternal`: counts the open, resets the strategy,
    re-arms the heartbeat, sends every buffered item in insertion order (without clearing
    the buffer), then reports the connection.
   */
  function OnOpen<D>(c: Client<D>): (r: Step<D>)
    ensures r.client.socket == Some(Open)
    ensures r.client.openTimes == c.openTimes + 1
    ensures r.client.heartbeatArmed && r.client.strategy == ResetStrategy(c.strategy)
    ensures r.client.buffer == c.buffer
    ensures r.effects == Transmits(c.buffer) + [Connected]
  {
    var up := c.(socket := Some(Open), openTimes := c.openTimes + 1,
                     strategy := ResetStrategy(c.strategy), heartbeatArmed := true);
    Step(up, Transmits(c.buffer) + [Connected])
  }

  /**
    `reconnect()`: nothing once the client was closed normally or without a strategy;
    otherwise it stops the heartbeat, takes the next delay from the strategy, arms the one
    reconnect timer with it and reports the same delay.
   */
  function Reconnect<D>(c: Client<D>, schedule: nat -> int): (r: Step<D>)
    ensures c.closeNormally || c.strategy.None? ==> r == Step(c, [])
    ensures !c.closeNormally && c.strategy.Some? ==>
      && r.client.reconnectArmed && !r.client.heartbeatArmed
      && r.client.strategy == Some(c.strategy.value + 1)
      && r.effects == [WillReconnect(schedule(c.strategy.value))]
    ensures r.client.buffer == c.buffer && r.client.closeNormally == c.closeNormally
    ensures r.client.socket == c.socket && r.client.openTimes == c.openTimes
  {
    if c.closeNormally || c.strategy.None? then Step(c, [])
    else
      var attempt := c.strategy.value;
      Step(c.(heartbeatArmed := false, strategy := Some(attempt + 1), reconnectArmed := true),
           [WillReconnect(schedule(attempt))])
  }

  /** `onClosed()`: zeroes `openTimes`, clears both timers, resets the strategy, disposes. */
  function Closed<D>(c: Client<D>): (r: Step<D>)
    ensures r.client.openTimes == 0 && !r.client.heartbeatArmed && !r.client.reconnectArmed
    ensures r.client.strategy == ResetStrategy(c.strategy)
    ensures r.effects == [Dispose]
  {
    Step(c.(openTimes := 0, reconnectArmed := false, heartbeatArmed := false,
            strategy := ResetStrategy(c.strategy)), [Dispose])
  }

  /**
    `onclose`: ignored when the socket never opened since the last `connect`; a clean code
    marks the client closed normally and disposes it; any other code asks to reconnect.
   */
  function OnClose<D>(c: Client<D>, code: int, schedule: nat -> int): (r: Step<D>)
    ensures r.client.socket == Some(ReadyState.Closed) && r.client.buffer == c.buffer
    ensures c.openTimes == 0 ==> r == Step(c.(socket := Some(ReadyState.Closed)), [])
    ensures c.openTimes > 0 && CleanCode(code) ==>
      && r.effects == [Dispose] && r.client.closeNormally && r.client.openTimes == 0
      && !r.client.heartbeatArmed && !r.client.reconnectArmed
    ensures c.openTimes > 0 && !CleanCode(code) ==>
      r.effects == (if c.closeNormally || c.strategy.None? then [] else [WillReconnect(schedule(c.strategy.value))])
  {
    var down := c.(socket := Some(ReadyState.Closed));
    if c.openTimes == 0 then Step(down, [])
    else if CleanCode(code) then Closed(down.(closeNormally := true))
    else Reconnect(down, schedule)
  }

  /** `close()`: marks the client closed normally for good and closes the socket with 1000. */
  function Close<D>(c: Client<D>): (r: Step<D>)
    ensures r.client.closeNormally
    ensures r.effects == if c.socket.Some? then [CloseSocket(1000)] else []
    ensures r.client.reconnectArmed == c.reconnectArmed && r.client.heartbeatArmed == c.heartbeatArmed
    ensures r.client.buffer == c.buffer
  {
    var closing := match c.socket
      case Some(Connecting) => Some(Closing)
      case Some(Open) => Some(Closing)
      case other => other;
    Step(c.(closeNormally := true, socket := closing),
         if c.socket.Some? then [CloseSocket(1000)] else [])
  }

  /** `send(data)`: sent at once when the socket is open, otherwise appended to the buffer. */
  function Send<D>(c: Client<D>, data: D): (r: Step<D>)
    ensures c.socket == Some(Open) ==> r.effects == [Transmit(data)] && r.client == c
    ensures c.socket != Some(Open) ==> r.effects == [] && r.client == c.(buffer := c.buffer + [data])
  {
    if c.socket == Some(Open) then Step(c, [Transmit(data)])
    else Step(c.(buffer := c.buffer + [data]), [])
  }

  // ---------------------------------------------------------------------------
  // Traces

  /**
    Everything that can happen to a client: the owner's calls, the socket's events and the
    timers firing. `built` says whether the socket constructor succeeded.
   */
  datatype Event<D> =
    | UserConnect(built: bool)
    | Opened
    | ClosedWith(code: int)
    | ReconnectFires(built: bool)
    | HeartbeatFires
    | UserClose
    | UserSend(data: D)

  /**
    The events that can actually arrive. `connect` is called by the owner once on a fresh
    client (`workers/websocket_worker.ts` does so right after construction); afterwards only
    the reconnect timer calls it. The socket opens only while connecting and closes only
    while not yet closed; a timer fires only while armed.
   */
  predicate Enabled<D>(c: Client<D>, e: Event<D>) {
    match e
    case UserConnect(_) => c.socket.None?
    case Opened => c.socket == Some(Connecting)
    case ClosedWith(_) => c.socket.Some? && c.socket.value != ReadyState.Closed
    case ReconnectFires(_) => c.reconnectArmed
    case HeartbeatFires => c.heartbeatArmed
    case UserClose => true
    case UserSend(_) => true
  }

  /** The handler each event runs. The reconnect timer is spent when it fires. */
  function Apply<D>(c: Client<D>, e: Event<D>, schedule: nat -> int): Step<D> {
    match e
    case UserConnect(built) => Connect(c, built)
    case Opened => OnOpen(c)
    case ClosedWith(code) => OnClose(c, code, schedule)
    case ReconnectFires(built) => Connect(c.(reconnectArmed := false), built)
    case HeartbeatFires => Step(c, [HeartbeatTick])
    case UserClose => Close(c)
    case UserSend(data) => Send(c, data)
  }

  function Run<D>(c: Client<D>, events: seq<Event<D>>, schedule: nat -> int): (r: Step<D>)
    decreases |events|
  {
    if |events| == 0 then Step(c, [])
    else
      var s := Apply(c, events[0], schedule);
      var rest := Run(s.client, events[1..], schedule);
      Step(rest.client, s.effects + rest.effects)
  }

  /** Every event of the trace can arrive when it does. */
  predicate Feasible<D>(c: Client<D>, events: seq<Event<D>>, schedule: nat -> int)
    decreases |events|
  {
    |events| == 0 || (Enabled(c, events[0]) && Feasible(Apply(c, events[0], schedule).client, events[1..], schedule))
  }

  // ---------------------------------------------------------------------------
  // Close-code classification

  /** A close before any open since the last `connect` neither reconnects nor disposes. */
  lemma NeverOpenedIgnored<D>(c: Client<D>, code: int, schedule: nat -> int)
    requires c.openTimes == 0
    ensures OnClose(c, code, schedule).effects == []
    ensures OnClose(c, code, schedule).client == c.(socket := Some(ReadyState.Closed))
  {
  }

  /**
    Codes 1000-1003 after an open mark the client closed normally, clear both timers,
    reset the strategy, zero `openTimes` and dispose exactly once; any other code after an
    open reconnects with the delay the strategy hands out, and reports that same delay.
   */
  lemma CloseCodeClassification<D>(c: Client<D>, code: int, schedule: nat -> int)
    requires c.openTimes > 0
    ensures var r := OnClose(c, code, schedule);
      CleanCode(code) ==>
        && r.effects == [Dispose] && r.client.closeNormally && r.client.openTimes == 0
        && !r.client.heartbeatArmed && !r.client.reconnectArmed
        && r.client.strategy == ResetStrategy(c.strategy)
    ensures var r := OnClose(c, code, schedule);
      !CleanCode(code) && !c.closeNormally && c.strategy.Some? ==>
        && r.effects == [WillReconnect(schedule(c.strategy.value))]
        && r.client.reconnectArmed && !r.client.heartbeatArmed
    ensures var r := OnClose(c, code, schedule);
      !CleanCode(code) && (c.closeNormally || c.strategy.None?) ==>
        r.effects == [] && r.client.heartbeatArmed == c.heartbeatArmed
  {
  }

  // ---------------------------------------------------------------------------
  // The buffer

  /** No handler ever removes from the buffer; only `send` on a socket that is not open appends. */
  lemma {:induction false} BufferNeverShrinks<D>(c: Client<D>, events: seq<Event<D>>, schedule: nat -> int)
    ensures c.buffer <= Run(c, events, schedule).client.buffer
    decreases |events|
  {
    if |events| > 0 {
      var s := Apply(c, events[0], schedule);
      assert c.buffer <= s.client.buffer;
      BufferNeverShrinks(s.client, events[1..], schedule);
    }
  }

  function Sends<D>(items: seq<D>): (r: seq<Event<D>>)
    ensures |r| == |items|
    ensures forall i :: 0 <= i < |items| ==> r[i] == UserSend(items[i])
  {
    seq(|items|, i requires 0 <= i < |items| => UserSend(items[i]))
  }

  /** While the socket is not open, sends go to the end of the buffer and nothing is transmitted. */
  lemma {:induction false} SendsWhileDown<D>(c: Client<D>, items: seq<D>, schedule: nat -> int)
    requires c.socket != Some(Open)
    ensures Run(c, Sends(items), schedule) == Step(c.(buffer := c.buffer + items), [])
    decreases |items|
  {
    if |items| == 0 {
      assert c.buffer + items == c.buffer;
    } else {
      var events := Sends(items);
      var s := Apply(c, UserSend(items[0]), schedule);
      assert events[0] == UserSend(items[0]);
      assert s == Step(c.(buffer := c.buffer + [items[0]]), []);
      assert events[1..] == Sends(items[1..]);
      SendsWhileDown(s.client, items[1..], schedule);
      var rest := Run(s.client, events[1..], schedule);
      assert rest == Step(c.(buffer := c.buffer + [items[0]] + items[1..]), []);
      assert Run(c, events, schedule) == Step(rest.client, s.effects + rest.effects);
      assert c.buffer + [items[0]] + items[1..] == c.buffer + items;
    }
  }

  /**
    FIFO replay: data sent while the socket is still connecting is transmitted, after
    everything buffered before it and in the order it was sent, when the socket opens.
   */
  lemma SendsThenOpen<D>(c: Client<D>, items: seq<D>, schedule: nat -> int)
    requires c.socket == Some(Connecting)
    ensures Run(c, Sends(items) + [Opened], schedule).effects == Transmits(c.buffer + items) + [Connected]
  {
    SendsWhileDown(c, items, schedule);
    RunConcat(c, Sends(items), [Opened], schedule);
    var mid := c.(buffer := c.buffer + items);
    var last: seq<Event<D>> := [Opened];
    assert last[1..] == [];
    assert Run(mid, last, schedule).effects == Transmits(mid.buffer) + [Connected];
  }

  /** Appending to a step's effects is associative. */
  lemma Chain<D>(first: seq<Effect<D>>, restA: Step<D>, tail: Step<D>, restAB: Step<D>)
    requires restAB.client == tail.client && restAB.effects == restA.effects + tail.effects
    ensures Step(restAB.client, first + restAB.effects).effects == Step(restA.client, first + restA.effects).effects + tail.effects
  {
  }

  lemma {:induction false} RunConcat<D>(c: Client<D>, a: seq<Event<D>>, b: seq<Event<D>>, schedule: nat -> int)
    ensures Run(c, a + b, schedule).client == Run(Run(c, a, schedule).client, b, schedule).client
    ensures Run(c, a + b, schedule).effects == Run(c, a, schedule).effects + Run(Run(c, a, schedule).client, b, schedule).effects
    decreases |a|
  {
    if |a| == 0 {
      assert a + b == b;
    } else {
      var ab := a + b;
      assert ab[0] == a[0] && ab[1..] == a[1..] + b;
      var s := Apply(c, a[0], schedule);
      RunConcat(s.client, a[1..], b, schedule);
      var restA := Run(s.client, a[1..], schedule);
      var restAB := Run(s.client, ab[1..], schedule);
      Chain(s.effects, restA, Run(restA.client, b, schedule), restAB);
    }
  }

  /**
    The buffer is replayed on every open, not only the first: an open, an abnormal close,
    the reconnect timer and a second open transmit the whole buffer twice, and the strategy
    was reset by the first open so the delay is the first one of the schedule.
   */
  lemma ReopenReplaysAgain<D>(c: Client<D>, code: int, schedule: nat -> int)
    requires c.socket == Some(Connecting) && !c.closeNormally && c.strategy.Some?
    requires !CleanCode(code)
    ensures Run(c, [Opened, ClosedWith(code), ReconnectFires(true), Opened], schedule).effects
         == Transmits(c.buffer) + [Connected, WillReconnect(schedule(0))] + Transmits(c.buffer) + [Connected]
  {
    var events: seq<Event<D>> := [Opened, ClosedWith(code), ReconnectFires(true), Opened];
    var s1 := OnOpen(c);
    var s2 := OnClose(s1.client, code, schedule);
    var s3 := Connect(s2.client.(reconnectArmed := false), true);
    var s4 := OnOpen(s3.client);
    assert s2.effects == [WillReconnect(schedule(0))];
    var e1 := events[1..];
    var e2 := e1[1..];
    var e3 := e2[1..];
    assert e1[0] == ClosedWith(code) && e2[0] == ReconnectFires(true) && e3 == [Opened] && e3[1..] == [];
    assert Run(s3.client, e3, schedule).effects == s4.effects + [];
    assert Run(s2.client, e2, schedule).effects == s3.effects + (s4.effects + []);
    assert Run(s1.client, e1, schedule).effects == s2.effects + (s3.effects + (s4.effects + []));
  }

  // ---------------------------------------------------------------------------
  // Closing for good

  /** The number of `WillReconnect` effects. */
  function Reconnects<D>(effects: seq<Effect<D>>): nat
    decreases |effects|
  {
    if |effects| == 0 then 0
    else (if effects[0].WillReconnect? then 1 else 0) + Reconnects(effects[1..])
  }

  lemma {:induction false} ReconnectsConcat<D>(a: seq<Effect<D>>, b: seq<Effect<D>>)
    ensures Reconnects(a + b) == Reconnects(a) + Reconnects(b)
    decreases |a|
  {
    if |a| == 0 {
      assert a + b == b;
    } else {
      assert (a + b)[0] == a[0] && (a + b)[1..] == a[1..] + b;
      ReconnectsConcat(a[1..], b);
    }
  }

  /**
    Nothing resets `closeNormally`: once set (by `close()` or a clean close code), no later
    event schedules a reconnect or reports one, whatever happens to the socket.
   */
  lemma {:induction false} ClosedForGood<D>(c: Client<D>, events: seq<Event<D>>, schedule: nat -> int)
    requires c.closeNormally
    ensures Run(c, events, schedule).client.closeNormally
    ensures Reconnects(Run(c, events, schedule).effects) == 0
    ensures Run(c, events, schedule).client.reconnectArmed ==> c.reconnectArmed
    decreases |events|
  {
    if |events| > 0 {
      var s := Apply(c, events[0], schedule);
      assert s.client.closeNormally && Reconnects(s.effects) == 0 by {
        match events[0]
        case ClosedWith(code) =>
        case UserClose =>
        case HeartbeatFires =>
          assert s.effects[1..] == [];
        case UserSend(data) =>
          if c.socket == Some(Open) { assert s.effects[1..] == []; }
        case UserConnect(_) =>
        case ReconnectFires(_) =>
        case Opened =>
          assert s.effects == Transmits(c.buffer) + [Connected];
          TransmitsQuiet(c.buffer);
          var tail: seq<Effect<D>> := [Connected];
          ReconnectsConcat(Transmits(c.buffer), tail);
          assert tail[1..] == [];
      }
      ClosedForGood(s.client, events[1..], schedule);
      ReconnectsConcat(s.effects, Run(s.client, events[1..], schedule).effects);
    }
  }

  lemma {:induction false} TransmitsQuiet<D>(items: seq<D>)
    ensures Reconnects(Transmits(items)) == 0
    decreases |items|
  {
    if |items| > 0 {
      assert Transmits(items)[1..] == Transmits(items[1..]);
      TransmitsQuiet(items[1..]);
    }
  }

  /**
    `close()` during the back-off does not cancel the armed reconnect timer: when it fires
    it still calls `connect`, which opens a new socket although the client was closed.
   */
  lemma CloseKeepsReconnectTimer<D>(c: Client<D>, schedule: nat -> int)
    requires c.reconnectArmed
    ensures Close(c).client.reconnectArmed
    ensures Apply(Close(c).client, ReconnectFires(true), schedule).client.socket == Some(Connecting)
    ensures Apply(Close(c).client, ReconnectFires(true), schedule).client.closeNormally
  {
  }

  // ---------------------------------------------------------------------------
  // Timers

  /**
    The reconnect timer is only armed on a closed socket with the heartbeat stopped, so the
    two timers are never armed together.
   */
  predicate TimersExclusive<D>(c: Client<D>) {
    c.reconnectArmed ==> !c.heartbeatArmed && c.socket == Some(ReadyState.Closed)
  }

  lemma TimersExclusiveStep<D>(c: Client<D>, e: Event<D>, schedule: nat -> int)
    requires TimersExclusive(c) && Enabled(c, e)
    ensures TimersExclusive(Apply(c, e, schedule).client)
  {
  }

  /** Along every feasible trace from a fresh client the two timers are never armed together. */
  lemma {:induction false} TimersExclusiveAlways<D>(c: Client<D>, events: seq<Event<D>>, schedule: nat -> int)
    requires TimersExclusive(c) && Feasible(c, events, schedule)
    ensures TimersExclusive(Run(c, events, schedule).client)
    decreases |events|
  {
    if |events| > 0 {
      TimersExclusiveStep(c, events[0], schedule);
      TimersExclusiveAlways(Apply(c, events[0], schedule).client, events[1..], schedule);
    }
  }

  /**
    Without a strategy, an abnormal close after an open does not stop the heartbeat: the
    interval keeps firing on the closed socket, and what it sends is buffered.
   */
  lemma NoStrategyHeartbeatSurvives<D>(c: Client<D>, code: int, schedule: nat -> int, ping: D)
    requires c.strategy.None? && c.openTimes > 0 && c.heartbeatArmed && !CleanCode(code)
    ensures OnClose(c, code, schedule).client.heartbeatArmed
    ensures Send(OnClose(c, code, schedule).client, ping).client.buffer == c.buffer + [ping]
  {
  }
}
