/**
  The shared worker's socket (`workers/websocket_worker.ts`): `WebSocketClient`, which
  numbers its requests and pings on every heartbeat tick, and the worker's dispatch of
  port commands over the `ports` list and the single `websocket` client.

  `PacketProtocol.encodeReq` is not part of this model: a packet is kept as the symbolic
  triple it encodes. The command names and `isConnectCmd` live in a file that is not part
  of this model either, so commands are a datatype.
 */
module SocketWorker {
  import opened Wrappers
  import SocketClient

  /** Request ids wrap modulo 0xFFFFFFFF, one less than 2^32. */
  const IdModulus: nat := 0xFFFF_FFFF

  /** The base delay of the exponential reconnect strategy the worker builds. */
  const RetryBaseMs: int := 1000

  /** `WebSocketMsgType`: the ping the heartbeat sends, or any other type. */
  datatype MsgType = Ping | Pong | OtherType(code: int)

  /** `encodeReq(msgType, requestId, payload)`, kept symbolic. */
  datatype Packet<P> = Packet(msgType: MsgType, requestId: nat, payload: Option<P>)

  /** `WebSocketConnectCmdData`. */
  datatype ConnectData = ConnectData(url: string, subprotocol: Option<seq<string>>, maxRetryAttempts: int, heartbeatInterval: int)

  /** `ExponentialRetryStrategy(base, maxAttempts)`; its delays are not part of this model. */
  datatype Exponential = Exponential(baseMs: int, maxAttempts: int)

  /** A `WebSocketClient`: the base client over packets, plus its strategy and request counter. */
  datatype Worker<P> = Worker(
    base: SocketClient.Client<Packet<P>>,
    retry: Exponential,
    heartbeatIntervalMs: int,
    url: string,
    requestId: nat)

  /** The constructor: an exponential strategy with base 1000 and the supplied attempt cap, id 0. */
  function NewWorker<P>(data: ConnectData): (w: Worker<P>)
    ensures w.retry == Exponential(1000, data.maxRetryAttempts)
    ensures w.requestId == 0 && w.heartbeatIntervalMs == data.heartbeatInterval && w.url == data.url
    ensures w.base == SocketClient.Initial(true)
  {
    Worker(SocketClient.Initial(true), Exponential(RetryBaseMs, data.maxRetryAttempts), data.heartbeatInterval, data.url, 0)
  }

  /** The request counter's successor. */
  function NextId(id: nat): (r: nat)
    ensures r < IdModulus
    ensures id < IdModulus - 1 ==> r == id + 1
    ensures id == IdModulus - 1 ==> r == 0
  {
    (id + 1) % IdModulus
  }

  /** The result of `sendMsg`: the client afterwards, the id it returned, and what the base client did. */
  datatype Sent<P> = Sent(worker: Worker<P>, id: nat, effects: seq<SocketClient.Effect<Packet<P>>>)

  /**
    `sendMsg(msgType, payload)`: advances the counter, encodes a packet carrying the new id,
    hands exactly that packet to `send` and returns the same id.
   */
  function SendMsg<P>(w: Worker<P>, msgType: MsgType, payload: Option<P>): (r: Sent<P>)
    ensures r.id == NextId(w.requestId) && r.worker.requestId == r.id
    ensures var packet := Packet(msgType, r.id, payload);
      r.worker.base == SocketClient.Send(w.base, packet).client
      && r.effects == SocketClient.Send(w.base, packet).effects
    ensures r.worker == w.(requestId := r.id, base := r.worker.base)
  {
    var id := NextId(w.requestId);
    var s := SocketClient.Send(w.base, Packet(msgType, id, payload));
    Sent(w.(requestId := id, base := s.client), id, s.effects)
  }

  /** Exactly one packet leaves `sendMsg`: transmitted at once on an open socket, buffered otherwise. */
  lemma SendMsgSendsOne<P>(w: Worker<P>, msgType: MsgType, payload: Option<P>)
    ensures var r := SendMsg(w, msgType, payload);
      var packet := Packet(msgType, r.id, payload);
      if w.base.socket == Some(SocketClient.Open)
      then r.effects == [SocketClient.Transmit(packet)] && r.worker.base.buffer == w.base.buffer
      else r.effects == [] && r.worker.base.buffer == w.base.buffer + [packet]
  {
  }

  /** `onHeartbeatTick`: one ping without payload. */
  function HeartbeatTick<P>(w: Worker<P>): (r: Sent<P>)
    ensures r.id == NextId(w.requestId)
    ensures var packet := Packet(Ping, r.id, None);
      r.effects == SocketClient.Send(w.base, packet).effects
      && r.worker.base == SocketClient.Send(w.base, packet).client
  {
    SendMsg(w, Ping, None)
  }

  // ---------------------------------------------------------------------------
  // The request-id counter

  /** The counter after `n` calls of `sendMsg` starting from `id`. */
  function IdAfter(id: nat, n: nat): nat
    decreases n
  {
    if n == 0 then id else NextId(IdAfter(id, n - 1))
  }

  /**
    Starting from the initial 0, the counter after `n` messages is `n mod 0xFFFFFFFF`: the
    first id is 1, every id lies in [0, 0xFFFFFFFE], and 0xFFFFFFFE is followed by 0.
   */
  lemma {:induction false} IdsCount(n: nat)
    ensures IdAfter(0, n) == n % IdModulus
    decreases n
  {
    if n > 0 {
      IdsCount(n - 1);
      var prev := (n - 1) % IdModulus;
      assert n - 1 == ((n - 1) / IdModulus) * IdModulus + prev;
      if prev < IdModulus - 1 {
        assert n == ((n - 1) / IdModulus) * IdModulus + (prev + 1);
      } else {
        assert n == ((n - 1) / IdModulus + 1) * IdModulus;
      }
    }
  }

  /** Ids are in range and the counter returns to 0 after exactly 0xFFFFFFFF messages. */
  lemma IdsWrap()
    ensures IdAfter(0, 1) == 1
    ensures IdAfter(0, IdModulus - 1) == IdModulus - 1
    ensures IdAfter(0, IdModulus) == 0
    ensures forall n: nat :: IdAfter(0, n) < IdModulus
  {
    IdsCount(1);
    IdsCount(IdModulus - 1);
    IdsCount(IdModulus);
    forall n: nat ensures IdAfter(0, n) < IdModulus {
      IdsCount(n);
    }
  }

  // ---------------------------------------------------------------------------
  // The worker's registry and dispatch

  /** What a port posts: a connect command with its data, the close command, or anything else. */
  datatype Command = ConnectCmd(data: ConnectData) | CloseCmd | OtherCmd

  /**
    The worker's module state: every connected port and the one client if any. `discarded`
    holds the clients the close command dropped: the worker keeps no reference to them, but
    `close()` does not cancel their timers, so they are still alive.
   */
  datatype Registry<Port, P> = Registry(ports: seq<Port>, websocket: Option<Worker<P>>, discarded: seq<Worker<P>>)

  /** What a command does: the registry afterwards, and the base client's effects. */
  datatype Dispatched<Port, P> = Dispatched(registry: Registry<Port, P>, effects: seq<SocketClient.Effect<Packet<P>>>)

  /** `onconnect`: the new port is appended to `ports`. */
  function OnConnect<Port, P>(reg: Registry<Port, P>, port: Port): (r: Registry<Port, P>)
    ensures r.ports == reg.ports + [port] && r.websocket == reg.websocket
  {
    reg.(ports := reg.ports + [port])
  }

  /**
    `port.onmessage`: a connect command while a client exists does nothing; otherwise it
    builds one client and calls `connect` on it (`built` says whether the socket constructor
    succeeded). The close command closes the client, if any, and forgets it.
   */
  function OnMessage<Port, P>(reg: Registry<Port, P>, cmd: Command, built: bool): (r: Dispatched<Port, P>)
    ensures r.registry.ports == reg.ports
    ensures cmd.CloseCmd? ==> r.registry.websocket.None?
    ensures !cmd.CloseCmd? ==> r.registry.discarded == reg.discarded
    ensures !cmd.CloseCmd? && reg.websocket.Some? ==> r.registry.websocket == reg.websocket
    ensures cmd.CloseCmd? ==> (|r.registry.discarded| == |reg.discarded| + (if reg.websocket.Some? then 1 else 0)
      && r.registry.discarded[..|reg.discarded|] == reg.discarded)
  {
    match cmd
    case ConnectCmd(data) =>
      if reg.websocket.Some? then Dispatched(reg, [])
      else
        var w: Worker<P> := NewWorker(data);
        var s := SocketClient.Connect(w.base, built);
        Dispatched(reg.(websocket := Some(w.(base := s.client))), s.effects)
    case CloseCmd =>
      if reg.websocket.Some? then
        var s := SocketClient.Close(reg.websocket.value.base);
        var dropped := reg.websocket.value.(base := s.client);
        Dispatched(reg.(websocket := None, discarded := reg.discarded + [dropped]), s.effects)
      else Dispatched(reg.(websocket := None), [])
    case OtherCmd => Dispatched(reg, [])
  }

  /** A connect command while a client exists leaves everything as it was. */
  lemma ConnectIdempotent<Port, P>(reg: Registry<Port, P>, data: ConnectData, built: bool)
    requires reg.websocket.Some?
    ensures OnMessage(reg, ConnectCmd(data), built) == Dispatched(reg, [])
  {
  }

  /**
    Without a client, a connect command builds exactly one, from the command's data, and
    starts connecting it: counter at 0, empty buffer, strategy fresh, not closed.
   */
  lemma ConnectBuildsOne<Port, P>(reg: Registry<Port, P>, data: ConnectData)
    requires reg.websocket.None?
    ensures var r := OnMessage(reg, ConnectCmd(data), true).registry;
      && r.websocket.Some?
      && r.websocket.value.retry == Exponential(1000, data.maxRetryAttempts)
      && r.websocket.value.requestId == 0
      && r.websocket.value.base.socket == Some(SocketClient.Connecting)
      && r.websocket.value.base.buffer == []
      && !r.websocket.value.base.closeNormally
  {
  }

  /**
    Close discards the client: the registry no longer holds it, the old client was told to
    close with 1000 and is kept, marked closed normally and with its timers as they were,
    among the discarded clients; a later connect builds a new client that starts from
    nothing the old one had (counter, buffer, closed flag).
   */
  lemma CloseThenConnectIsFresh<Port, P>(reg: Registry<Port, P>, data: ConnectData)
    requires reg.websocket.Some? && reg.websocket.value.base.socket.Some?
    ensures OnMessage(reg, CloseCmd, true).registry.websocket == None
    ensures OnMessage(reg, CloseCmd, true).effects == [SocketClient.CloseSocket(1000)]
    ensures var prior := reg.websocket.value;
      var d := OnMessage(reg, CloseCmd, true).registry.discarded;
      && |d| == |reg.discarded| + 1 && d[..|reg.discarded|] == reg.discarded
      && d[|reg.discarded|].requestId == prior.requestId && d[|reg.discarded|].base.closeNormally
      && d[|reg.discarded|].base.reconnectArmed == prior.base.reconnectArmed
      && d[|reg.discarded|].base.heartbeatArmed == prior.base.heartbeatArmed
    ensures var after := OnMessage(OnMessage(reg, CloseCmd, true).registry, ConnectCmd(data), true).registry;
      && after.websocket.Some? && after.websocket.value.requestId == 0
      && after.websocket.value.base.buffer == []
      && !after.websocket.value.base.closeNormally
  {
  }

  /**
    Closing a client whose reconnect timer is armed does not stop it: the worker drops its
    only reference, yet when the timer fires the dropped client opens a new socket, and once
    that socket opens its heartbeat pings on it.
   */
  lemma DiscardedClientReconnects<Port, P>(reg: Registry<Port, P>, schedule: nat -> int)
    requires reg.websocket.Some? && reg.websocket.value.base.reconnectArmed
    ensures var r := OnMessage(reg, CloseCmd, true).registry;
      && r.websocket.None?
      && |r.discarded| == |reg.discarded| + 1
      && var dropped := r.discarded[|reg.discarded|];
        var connecting := SocketClient.Apply(dropped.base, SocketClient.ReconnectFires(true), schedule).client;
        var reopened := SocketClient.OnOpen(connecting).client;
        && dropped.base.reconnectArmed
        && connecting.socket == Some(SocketClient.Connecting)
        && reopened.socket == Some(SocketClient.Open) && reopened.heartbeatArmed
        && HeartbeatTick(dropped.(base := reopened)).effects
           == [SocketClient.Transmit(Packet(Ping, NextId(dropped.requestId), None))]
  {
    var dropped := OnMessage(reg, CloseCmd, true).registry.discarded[|reg.discarded|];
    var connecting := SocketClient.Apply(dropped.base, SocketClient.ReconnectFires(true), schedule).client;
    var reopened := SocketClient.OnOpen(connecting).client;
    SendMsgSendsOne(dropped.(base := reopened), Ping, None);
  }

  /** What reaches the worker: a port connecting, or a port posting a command. */
  datatype WorkerEvent<Port> = PortConnects(port: Port) | PortPosts(cmd: Command, built: bool)

  /** One event on the registry. */
  function WorkerStep<Port, P>(reg: Registry<Port, P>, e: WorkerEvent<Port>): (r: Registry<Port, P>)
    ensures r.ports == reg.ports + (if e.PortConnects? then [e.port] else [])
  {
    match e
    case PortConnects(port) => OnConnect(reg, port)
    case PortPosts(cmd, built) => assert reg.ports + [] == reg.ports; OnMessage(reg, cmd, built).registry
  }

  function RunWorker<Port, P>(reg: Registry<Port, P>, events: seq<WorkerEvent<Port>>): Registry<Port, P>
    decreases |events|
  {
    if |events| == 0 then reg else RunWorker(WorkerStep(reg, events[0]), events[1..])
  }

  /** The ports that connect during a trace, in order. */
  function Joined<Port>(events: seq<WorkerEvent<Port>>): seq<Port>
    decreases |events|
  {
    if |events| == 0 then []
    else (if events[0].PortConnects? then [events[0].port] else []) + Joined(events[1..])
  }

  /** Ports are only ever appended: the list is the start list followed by every port that connected, in order. */
  lemma {:induction false} PortsAppendOnly<Port, P>(reg: Registry<Port, P>, events: seq<WorkerEvent<Port>>)
    ensures RunWorker(reg, events).ports == reg.ports + Joined(events)
    decreases |events|
  {
    if |events| == 0 {
      assert reg.ports + [] == reg.ports;
    } else {
      var head: seq<Port> := if events[0].PortConnects? then [events[0].port] else [];
      var next := WorkerStep(reg, events[0]);
      assert next.ports == reg.ports + head;
      assert Joined(events) == head + Joined(events[1..]);
      PortsAppendOnly(next, events[1..]);
      assert RunWorker(reg, events) == RunWorker(next, events[1..]);
      assert reg.ports + head + Joined(events[1..]) == reg.ports + (head + Joined(events[1..]));
    }
  }
}
