/**
 The connection lifecycle of client.go as a state machine: socket generations, the handler queue of each,
 the expected-disconnect and force-reconnect flags, disconnect callbacks and finishDisconnect tasks.
 Every step is what one holder of socketLock, or one turn of a handler queue loop, does.
 */
module Lifecycle {
  import opened Prelude

  const HANDLER_QUEUE_SIZE := 256

  // ---------- stream errors ----------

  /** A queued node; for the CAT codes, whether refreshing the token is configured and fails. */
  datatype Node = Node(isStreamError: bool, code: string, conflict: string, catRefreshFails: bool)

  /** The branches of handleStreamError that expect a disconnect. */
  predicate Expects(n: Node) {
    && n.isStreamError && n.code != "515"
    && (|| (n.code == "401" && n.conflict == "device_removed")
        || n.conflict == "replaced"
        || ((n.code == "413" || n.code == "414") && n.catRefreshFails))
  }

  function StreamErrors(q: seq<Node>): seq<Node> {
    if q == [] then []
    else if q[0].isStreamError then [q[0]] + StreamErrors(q[1..])
    else StreamErrors(q[1..])
  }

  ghost predicate AnyExpects(q: seq<Node>) { exists n :: n in q && Expects(n) }

  // ---------- one generation ----------

  datatype Phase = Running | Handling(node: Node) | Draining | Closed

  /**
   A socket generation.  `handler` is its disconnect callback, `ctxDone` its connection context.  The other fields are
   history: the queue and the node being handled when the context ended, whether the loop stopped waiting for that node,
   what arrived before the queue closed, the stream errors handled since, and how many flag resets had happened then.
   */
  datatype Conn = Conn(connected: bool, ctxDone: bool, destroyed: bool, handler: bool, queue: seq<Node>, phase: Phase,
                       atEnd: seq<Node>, busy: Option<Node>, slow: bool, late: seq<Node>, drained: seq<Node>, endResets: nat)

  const NEW_CONN := Conn(true, false, false, true, [], Running, [], None, false, [], [], 0)

  function EndCtx(c: Conn, resets: nat): Conn {
    if c.ctxDone then c
    else c.(ctxDone := true, atEnd := c.queue, busy := if c.phase.Handling? then Some(c.phase.node) else None, slow := false,
            late := [], drained := [], endResets := resets)
  }

  // ---------- the client ----------

  datatype Task = Task(queueWait: Option<nat>, remote: bool)

  datatype Callback = Callback(gen: nat, remote: bool)

  /** A reconnect started by finishDisconnect, with what held at that moment. */
  datatype Decision = Decision(gen: Option<nat>, generations: nat, socket: Option<nat>, expected: bool, resets: nat)

  datatype State = State(
    socket: Option<nat>, queueWait: Option<nat>, expected: bool, force: bool,
    conns: seq<Conn>, tasks: set<Task>, callbacks: set<Callback>,
    spawned: set<nat>, reconnects: seq<Decision>, resets: nat)

  const INITIAL := State(None, None, false, false, [], {}, {}, {}, [], 0)

  function ExpectDisconnect(s: State): State { s.(force := false, expected := true) }

  function ResetExpectedDisconnect(s: State): State { s.(force := false, expected := false, resets := s.resets + 1) }

  /** FrameSocket.Close: once; cancels the context and schedules the callback if one is still set. */
  function FsClose(s: State, g: nat, remote: bool): State
    requires g < |s.conns|
  {
    var c := s.conns[g];
    if !c.connected then s
    else s.(conns := s.conns[g := EndCtx(c.(connected := false), s.resets)],
            callbacks := s.callbacks + (if c.handler then {Callback(g, remote)} else {}))
  }

  /** NoiseSocket.Stop: only the first call has an effect. */
  function Stop(s: State, g: nat, disconnect: bool, allowOnDisconnect: bool): State
    requires g < |s.conns|
  {
    var c := s.conns[g];
    if c.destroyed then s
    else
      var t := s.(conns := s.conns[g := c.(destroyed := true, handler := c.handler && allowOnDisconnect)]);
      if disconnect then FsClose(t, g, false) else t
  }

  predicate ChannelClosed(s: State, q: nat) { q < |s.conns| && s.conns[q].phase == Closed }

  /** Stops the installed socket, if there is one. */
  function StopInstalled(s: State): State
    requires SocketExists(s)
  {
    if s.socket.Some? then Stop(s, s.socket.value, true, false).(socket := None) else s
  }

  /**
   unlockedDisconnect: waits up to five seconds for the queue to close, and forgets its channel only if it did.
   `during` is what others do in that time without the socket lock, the queue's own loop in particular.
   */
  function UnlockedDisconnect(s: State, during: seq<Step>): State
    requires SocketExists(s)
  {
    var t := StopInstalled(s);
    if t.queueWait.None? then t
    else
      var u := PerformAll(t, during);
      if ChannelClosed(u, t.queueWait.value) then u.(queueWait := None) else u
  }

  function Install(s: State): State {
    s.(socket := Some(|s.conns|), queueWait := Some(|s.conns|), conns := s.conns + [NEW_CONN])
  }

  /** Whether unlockedConnect has to disconnect first: a queue without a socket, or a socket that is not connected. */
  predicate HasLeftovers(s: State)
    requires SocketExists(s)
  {
    if s.socket.None? then s.queueWait.Some? else !s.conns[s.socket.value].connected
  }

  /** unlockedConnect; `refused` for a shadow client or a deleted device, `dialed` if dial and handshake succeed. */
  function UnlockedConnect(s: State, refused: bool, dialed: bool, during: seq<Step>): State
    requires SocketExists(s)
  {
    if refused || (s.socket.Some? && s.conns[s.socket.value].connected) then s
    else
      var t := ResetExpectedDisconnect(if HasLeftovers(s) then UnlockedDisconnect(s, during) else s);
      if dialed then Install(t) else t
  }

  function OnDisconnect(s: State, cb: Callback): State
    requires cb.gen < |s.conns|
  {
    var t := Stop(s.(callbacks := s.callbacks - {cb}), cb.gen, false, false);
    if t.socket == Some(cb.gen) then
      t.(socket := None, tasks := t.tasks + {Task(t.queueWait, cb.remote)}, spawned := t.spawned + {cb.gen})
    else t
  }

  function FinishDisconnect(s: State, task: Task): State {
    var t := s.(tasks := s.tasks - {task});
    if t.socket.Some? || t.queueWait != task.queueWait || t.expected then t
    else if t.force || task.remote then
      t.(force := false, reconnects := t.reconnects + [Decision(task.queueWait, |t.conns|, t.socket, t.expected, t.resets)])
    else t
  }

  function Disconnect(s: State, during: seq<Step>): State
    requires SocketExists(s)
  {
    UnlockedDisconnect(ExpectDisconnect(s), during)
  }

  function ResetConnection(s: State): State
    requires SocketExists(s)
  {
    var t := s.(force := true);
    if t.socket.Some? then Stop(t, t.socket.value, true, true) else t
  }

  // ---------- the handler queue ----------

  function Handle(s: State, n: Node): State { if Expects(n) then ExpectDisconnect(s) else s }

  /** enqueueNode: a full queue forces a reconnect; `dropped` resolves the race with an ended context. */
  function Enqueue(s: State, g: nat, n: Node, dropped: bool): State
    requires g < |s.conns|
  {
    var c := s.conns[g];
    if c.ctxDone && dropped then s
    else if |c.queue| < HANDLER_QUEUE_SIZE then
      s.(conns := s.conns[g := c.(queue := c.queue + [n], late := if c.ctxDone && c.phase != Closed then c.late + [n] else c.late)])
    else if c.ctxDone then s
    else s.(force := true)
  }

  /** One turn of the main loop with a node: handled in a goroutine, or after the context ended only if a stream error. */
  function Take(s: State, g: nat): State
    requires g < |s.conns| && s.conns[g].queue != []
  {
    var c, n := s.conns[g], s.conns[g].queue[0];
    if !c.ctxDone then s.(conns := s.conns[g := c.(queue := c.queue[1..], phase := Handling(n))])
    else DrainOne(s, g)
  }

  /** One node of the deferred drain. */
  function DrainOne(s: State, g: nat): State
    requires g < |s.conns| && s.conns[g].queue != []
  {
    var c, n := s.conns[g], s.conns[g].queue[0];
    var d := c.(queue := c.queue[1..], phase := Draining, drained := if n.isStreamError then c.drained + [n] else c.drained);
    Handle(s.(conns := s.conns[g := d]), n)
  }

  // ---------- steps ----------

  function SetPhase(s: State, g: nat, p: Phase): State
    requires g < |s.conns|
  {
    s.(conns := s.conns[g := s.conns[g].(phase := p)])
  }

  /** The loop stops waiting for the node being handled; its effect comes as another step. */
  function GiveUp(s: State, g: nat): State
    requires g < |s.conns|
  {
    var c := s.conns[g];
    s.(conns := s.conns[g := c.(phase := Running, slow := c.slow || c.ctxDone)])
  }

  /** What happens without the socket lock. */
  datatype Step =
    | RemoteClose(gen: nat)          // the server or the network closes a socket
    | Cancel(gen: nat)               // the caller's context ends
    | Abandon(task: Task)            // finishDisconnect, its context being done first
    | Expect                         // any other handler that expects a disconnect
    | ClearFlags                     // keepAliveLoop resetting the flags after its own Disconnect
    | Arrive(gen: nat, node: Node, dropped: bool)
    | TakeNext(gen: nat)
    | Handled(gen: nat)              // the goroutine of the node being handled is done
    | Slow(gen: nat)
    | CtxSeen(gen: nat)              // the loop notices the ended context
    | DrainNext(gen: nat)

  function Perform(s: State, a: Step): State {
    match a
    case RemoteClose(g) => if g < |s.conns| then FsClose(s, g, true) else s
    case Cancel(g) => if g < |s.conns| then s.(conns := s.conns[g := EndCtx(s.conns[g], s.resets)]) else s
    case Abandon(task) => s.(tasks := s.tasks - {task})
    case Expect => ExpectDisconnect(s)
    case ClearFlags => ResetExpectedDisconnect(s)
    case Arrive(g, n, dropped) => if g < |s.conns| then Enqueue(s, g, n, dropped) else s
    case TakeNext(g) => if g < |s.conns| && s.conns[g].phase == Running && s.conns[g].queue != [] then Take(s, g) else s
    case Handled(g) => if g < |s.conns| && s.conns[g].phase.Handling? then Handle(SetPhase(s, g, Running), s.conns[g].phase.node) else s
    case Slow(g) => if g < |s.conns| && s.conns[g].phase.Handling? then GiveUp(s, g) else s
    case CtxSeen(g) => if g < |s.conns| && s.conns[g].phase == Running && s.conns[g].ctxDone then SetPhase(s, g, Draining) else s
    case DrainNext(g) =>
      if !(g < |s.conns| && s.conns[g].phase == Draining) then s
      else if s.conns[g].queue != [] then DrainOne(s, g)
      else SetPhase(s, g, Closed)
  }

  function PerformAll(s: State, steps: seq<Step>): State {
    if steps == [] then s else Perform(PerformAll(s, steps[..|steps| - 1]), steps[|steps| - 1])
  }

  datatype Action =
    | ConnectAction(refused: bool, dialed: bool, during: seq<Step>)
    | DisconnectAction(during: seq<Step>)
    | ResetConnectionAction
    | CallbackAction(cb: Callback)
    | FinishAction(task: Task)             // finishDisconnect, its queue channel being closed
    | FreeAction(step: Step)

  predicate SocketExists(s: State) { s.socket.Some? ==> s.socket.value < |s.conns| }

  function Next(s: State, a: Action): State
    requires SocketExists(s)
  {
    match a
    case ConnectAction(refused, dialed, during) => UnlockedConnect(s, refused, dialed, during)
    case DisconnectAction(during) => Disconnect(s, during)
    case ResetConnectionAction => ResetConnection(s)
    case CallbackAction(cb) => if cb in s.callbacks && cb.gen < |s.conns| then OnDisconnect(s, cb) else s
    case FinishAction(task) =>
      if task in s.tasks && (task.queueWait.Some? ==> ChannelClosed(s, task.queueWait.value)) then FinishDisconnect(s, task) else s
    case FreeAction(step) => Perform(s, step)
  }

  /** The state after a list of steps. */
  function Run(actions: seq<Action>): State {
    if actions == [] then INITIAL
    else
      var s := Run(actions[..|actions| - 1]);
      if SocketExists(s) then Next(s, actions[|actions| - 1]) else s
  }
}
