/**
 What holds in every reachable state of the connection lifecycle.
 */
module LifecycleLaws {
  import opened Prelude
  import opened Lifecycle

  // ---------- the invariant ----------

  /** The history of one generation: its stream errors are handled in order, and expecting ones leave their mark. */
  ghost predicate ConnOk(c: Conn, expected: bool, resets: nat) {
    && (c.phase.Draining? || c.phase.Closed? || !c.connected ==> c.ctxDone)
    && (c.ctxDone ==>
          && c.endResets <= resets
          && c.drained + (if c.phase.Closed? then [] else StreamErrors(c.queue)) == StreamErrors(c.atEnd + c.late)
          && (AnyExpects(c.drained) && c.endResets == resets ==> expected)
          && (c.phase.Handling? ==> c.busy == Some(c.phase.node))
          && (BusyExpects(c) && !c.phase.Handling? && c.endResets == resets ==> expected))
  }

  /** The node being handled when the context ended expects a disconnect, and the loop waited for it. */
  predicate BusyExpects(c: Conn) { c.busy.Some? && Expects(c.busy.value) && !c.slow }

  /** A stream error that expects a disconnect was queued, or being handled, when the context ended. */
  ghost predicate LeftExpecting(c: Conn) { AnyExpects(StreamErrors(c.atEnd)) || BusyExpects(c) }

  ghost predicate ConnsOk(s: State) {
    forall g :: 0 <= g < |s.conns| ==> ConnOk(s.conns[g], s.expected, s.resets)
  }

  /** The socket is paired with its own queue, which is the newest; each generation spawns at most one task. */
  ghost predicate Paired(s: State) {
    && (s.socket.Some? ==> s.queueWait == s.socket && s.socket.value !in s.spawned)
    && (s.queueWait.Some? ==> s.queueWait.value + 1 == |s.conns|)
    && (forall g :: g in s.spawned ==> g < |s.conns|)
    && (forall t :: t in s.tasks ==> t.queueWait.Some? && t.queueWait.value in s.spawned)
    && (forall t, u :: t in s.tasks && u in s.tasks && t.queueWait == u.queueWait ==> t == u)
  }

  /** What was true when a reconnect was started. */
  ghost predicate Justified(conns: seq<Conn>, d: Decision) {
    && d.gen.Some? && d.gen.value + 1 == d.generations <= |conns| && d.socket.None? && !d.expected
    && conns[d.gen.value].phase.Closed?
    && (LeftExpecting(conns[d.gen.value]) ==> conns[d.gen.value].endResets < d.resets)
  }

  ghost predicate ReconnectsOk(s: State) {
    && (forall i :: 0 <= i < |s.reconnects| ==>
          && Justified(s.conns, s.reconnects[i])
          && s.reconnects[i].gen.value in s.spawned
          && forall t :: t in s.tasks ==> t.queueWait != s.reconnects[i].gen)
    && (forall i, j :: 0 <= i < j < |s.reconnects| ==> s.reconnects[i].gen != s.reconnects[j].gen)
  }

  ghost predicate Inv(s: State) { Paired(s) && ConnsOk(s) && ReconnectsOk(s) }

  // ---------- stream errors in order ----------

  lemma {:induction false} StreamErrorsConcat(a: seq<Node>, b: seq<Node>)
    ensures StreamErrors(a + b) == StreamErrors(a) + StreamErrors(b)
  {
    if a == [] {
      assert a + b == b;
    } else {
      assert (a + b)[1..] == a[1..] + b;
      StreamErrorsConcat(a[1..], b);
    }
  }

  lemma {:induction false} EndKeepsConnOk(c: Conn, expected: bool, resets: nat)
    requires ConnOk(c, expected, resets) || (c.ctxDone && ConnOk(c.(connected := true), expected, resets))
          || (!c.ctxDone && !c.phase.Draining? && !c.phase.Closed?)
    ensures ConnOk(EndCtx(c, resets), expected, resets)
  {
    if !c.ctxDone {
      assert c.queue + [] == c.queue;
      assert [] + StreamErrors(c.queue) == StreamErrors(c.queue);
    }
  }

  lemma {:induction false} ArrivalKeepsConnOk(c: Conn, n: Node, expected: bool, resets: nat)
    requires ConnOk(c, expected, resets)
    ensures ConnOk(c.(queue := c.queue + [n], late := if c.ctxDone && c.phase != Closed then c.late + [n] else c.late), expected, resets)
  {
    if c.ctxDone && !c.phase.Closed? {
      assert c.atEnd + (c.late + [n]) == (c.atEnd + c.late) + [n];
      StreamErrorsConcat(c.atEnd + c.late, [n]);
      StreamErrorsConcat(c.queue, [n]);
      assert c.drained + (StreamErrors(c.queue) + StreamErrors([n])) == (c.drained + StreamErrors(c.queue)) + StreamErrors([n]);
    }
  }

  lemma {:induction false} DrainKeepsConnOk(c: Conn, expected: bool, resets: nat)
    requires ConnOk(c, expected, resets) && c.ctxDone && (c.phase.Running? || c.phase.Draining?) && c.queue != []
    ensures var n := c.queue[0];
            ConnOk(c.(queue := c.queue[1..], phase := Draining, drained := if n.isStreamError then c.drained + [n] else c.drained),
                   expected || Expects(n), resets)
  {
  }

  // ---------- steps on one generation, and on the flags ----------

  /** A closed queue stays closed, and its history stays. */
  predicate KeepsHistory(c: Conn, d: Conn) {
    c.phase.Closed? ==>
      d.phase.Closed? && d.atEnd == c.atEnd && d.busy == c.busy && d.slow == c.slow && d.endResets == c.endResets
  }

  lemma {:induction false} WithConn(s: State, g: nat, c: Conn)
    requires Inv(s) && g < |s.conns| && ConnOk(c, s.expected, s.resets) && KeepsHistory(s.conns[g], c)
    ensures Inv(s.(conns := s.conns[g := c]))
  {
  }

  lemma {:induction false} WithFlags(s: State, expected: bool, force: bool, resets: nat)
    requires Inv(s) && (if resets == s.resets then s.expected ==> expected else resets > s.resets)
    ensures Inv(s.(expected := expected, force := force, resets := resets))
  {
  }

  lemma {:induction false} FsCloseKeepsInv(s: State, g: nat, remote: bool)
    requires Inv(s) && g < |s.conns|
    ensures Inv(FsClose(s, g, remote)) && FsClose(s, g, remote).conns[g].phase == s.conns[g].phase
  {
    var c := s.conns[g];
    if c.connected {
      assert ConnOk(c, s.expected, s.resets);
      var d := EndCtx(c.(connected := false), s.resets);
      EndKeepsConnOk(c.(connected := false), s.expected, s.resets);
      WithConn(s, g, d);
    }
  }

  lemma {:induction false} StopKeepsInv(s: State, g: nat, disconnect: bool, allow: bool)
    requires Inv(s) && g < |s.conns|
    ensures Inv(Stop(s, g, disconnect, allow)) && Stop(s, g, disconnect, allow).conns[g].phase == s.conns[g].phase
  {
    var c := s.conns[g];
    if !c.destroyed {
      var d := c.(destroyed := true, handler := c.handler && allow);
      assert ConnOk(c, s.expected, s.resets);
      WithConn(s, g, d);
      FsCloseKeepsInv(s.(conns := s.conns[g := d]), g, false);
    }
  }

  lemma {:induction false} WithoutSocket(s: State)
    requires Inv(s)
    ensures Inv(s.(socket := None))
  {
  }

  lemma {:induction false} WithoutQueue(s: State)
    requires Inv(s) && s.socket.None?
    ensures Inv(s.(queueWait := None))
  {
  }

  lemma {:induction false} InstallKeepsInv(s: State)
    requires Inv(s)
    ensures Inv(Install(s))
  {
  }

  lemma {:induction false} OnDisconnectKeepsInv(s: State, cb: Callback)
    requires Inv(s) && cb.gen < |s.conns|
    ensures Inv(OnDisconnect(s, cb))
  {
    var s0 := s.(callbacks := s.callbacks - {cb});
    assert Inv(s0);
    StopKeepsInv(s0, cb.gen, false, false);
    var t := Stop(s0, cb.gen, false, false);
    if t.socket == Some(cb.gen) {
      SpawnKeepsInv(t, cb.remote);
    }
  }

  lemma {:induction false} SpawnKeepsInv(s: State, remote: bool)
    requires Inv(s) && s.socket.Some?
    ensures Inv(s.(socket := None, tasks := s.tasks + {Task(s.queueWait, remote)}, spawned := s.spawned + {s.socket.value}))
  {
  }

  /** At the decision, an expecting stream error left when the context ended still shows, unless the flags were reset since. */
  lemma {:induction false} ExpectingErrorShows(c: Conn, expected: bool, resets: nat)
    requires ConnOk(c, expected, resets) && c.phase.Closed? && LeftExpecting(c)
    ensures expected || c.endResets < resets
  {
    if AnyExpects(StreamErrors(c.atEnd)) {
      StreamErrorsConcat(c.atEnd, c.late);
      assert c.drained + [] == c.drained;
      var n :| n in StreamErrors(c.atEnd) && Expects(n);
      assert n in c.drained;
    }
  }

  lemma {:induction false} FinishKeepsInv(s: State, task: Task)
    requires Inv(s) && task in s.tasks && (task.queueWait.Some? ==> ChannelClosed(s, task.queueWait.value))
    ensures Inv(FinishDisconnect(s, task))
  {
    var t := s.(tasks := s.tasks - {task});
    assert Inv(t);
    var u := FinishDisconnect(s, task);
    if u.reconnects != t.reconnects {
      var g := task.queueWait.value;
      assert ConnOk(s.conns[g], s.expected, s.resets);
      if LeftExpecting(s.conns[g]) {
        ExpectingErrorShows(s.conns[g], s.expected, s.resets);
      }
    }
  }

  lemma {:induction false} DrainOneKeepsInv(s: State, g: nat)
    requires Inv(s) && g < |s.conns| && s.conns[g].queue != [] && s.conns[g].ctxDone
    requires s.conns[g].phase.Running? || s.conns[g].phase.Draining?
    ensures Inv(DrainOne(s, g))
  {
    var c, n := s.conns[g], s.conns[g].queue[0];
    var t := s.(expected := s.expected || Expects(n));
    WithFlags(s, t.expected, s.force, s.resets);
    assert ConnOk(c, s.expected, s.resets);
    DrainKeepsConnOk(c, s.expected, s.resets);
    var d := c.(queue := c.queue[1..], phase := Draining, drained := if n.isStreamError then c.drained + [n] else c.drained);
    WithConn(t, g, d);
  }

  lemma {:induction false} PhaseKeepsInv(s: State, g: nat, p: Phase)
    requires Inv(s) && g < |s.conns| && !s.conns[g].phase.Closed?
    requires !s.conns[g].phase.Handling? && s.conns[g].ctxDone && (p.Draining? || (p.Closed? && s.conns[g].queue == []))
    ensures Inv(SetPhase(s, g, p))
  {
  }

  // ---------- every step, every run ----------

  lemma {:induction false} EnqueueKeepsInv(s: State, g: nat, n: Node, dropped: bool)
    requires Inv(s) && g < |s.conns|
    ensures Inv(Enqueue(s, g, n, dropped))
  {
    var c := s.conns[g];
    assert ConnOk(c, s.expected, s.resets);
    ArrivalKeepsConnOk(c, n, s.expected, s.resets);
    WithConn(s, g, c.(queue := c.queue + [n], late := if c.ctxDone && c.phase != Closed then c.late + [n] else c.late));
    WithFlags(s, s.expected, true, s.resets);
  }

  lemma {:induction false} TakeKeepsInv(s: State, g: nat)
    requires Inv(s) && g < |s.conns| && s.conns[g].phase == Running && s.conns[g].queue != []
    ensures Inv(Take(s, g))
  {
    var c := s.conns[g];
    assert ConnOk(c, s.expected, s.resets);
    if c.ctxDone {
      DrainOneKeepsInv(s, g);
    } else {
      WithConn(s, g, c.(queue := c.queue[1..], phase := Handling(c.queue[0])));
    }
  }

  /** Handling a node leaves its mark before the loop goes on. */
  lemma {:induction false} HandledKeepsInv(s: State, g: nat)
    requires Inv(s) && g < |s.conns| && s.conns[g].phase.Handling?
    ensures Inv(Handle(SetPhase(s, g, Running), s.conns[g].phase.node))
  {
    var c := s.conns[g];
    var t := Handle(s, c.phase.node);
    WithFlags(s, t.expected, t.force, s.resets);
    assert ConnOk(c, t.expected, t.resets);
    WithConn(t, g, c.(phase := Running));
  }

  lemma {:induction false} GiveUpKeepsInv(s: State, g: nat)
    requires Inv(s) && g < |s.conns| && s.conns[g].phase.Handling?
    ensures Inv(GiveUp(s, g))
  {
    var c := s.conns[g];
    assert ConnOk(c, s.expected, s.resets);
    WithConn(s, g, c.(phase := Running, slow := c.slow || c.ctxDone));
  }

  lemma {:induction false} DrainStepKeepsInv(s: State, g: nat)
    requires Inv(s) && g < |s.conns| && s.conns[g].phase == Draining
    ensures Inv(if s.conns[g].queue != [] then DrainOne(s, g) else SetPhase(s, g, Closed))
  {
    assert ConnOk(s.conns[g], s.expected, s.resets);
    if s.conns[g].queue != [] {
      DrainOneKeepsInv(s, g);
    } else {
      PhaseKeepsInv(s, g, Closed);
    }
  }

  lemma {:induction false} LoopStepKeepsInv(s: State, a: Step)
    requires Inv(s) && (a.Arrive? || a.TakeNext? || a.Handled? || a.Slow? || a.CtxSeen? || a.DrainNext?)
    ensures Inv(Perform(s, a))
  {
    if a.gen < |s.conns| {
      var g, c := a.gen, s.conns[a.gen];
      assert ConnOk(c, s.expected, s.resets);
      match a
      case Arrive(_, n, dropped) => EnqueueKeepsInv(s, g, n, dropped);
      case TakeNext(_) => if c.phase == Running && c.queue != [] { TakeKeepsInv(s, g); }
      case Handled(_) => if c.phase.Handling? { HandledKeepsInv(s, g); }
      case Slow(_) => if c.phase.Handling? { GiveUpKeepsInv(s, g); }
      case CtxSeen(_) => if c.phase == Running && c.ctxDone { PhaseKeepsInv(s, g, Draining); }
      case DrainNext(_) => if c.phase == Draining { DrainStepKeepsInv(s, g); }
    }
  }

  lemma {:induction false} PerformKeepsInv(s: State, a: Step)
    requires Inv(s)
    ensures Inv(Perform(s, a))
  {
    match a
    case RemoteClose(g) => if g < |s.conns| { FsCloseKeepsInv(s, g, true); }
    case Cancel(g) =>
      if g < |s.conns| {
        assert ConnOk(s.conns[g], s.expected, s.resets);
        EndKeepsConnOk(s.conns[g], s.expected, s.resets);
        WithConn(s, g, EndCtx(s.conns[g], s.resets));
      }
    case Abandon(task) =>
    case Expect => WithFlags(s, true, false, s.resets);
    case ClearFlags => WithFlags(s, false, false, s.resets + 1);
    case _ => LoopStepKeepsInv(s, a);
  }

  /** What a step without the socket lock cannot change. */
  lemma {:induction false} PerformKeepsClient(s: State, a: Step)
    ensures var t := Perform(s, a);
            && t.socket == s.socket && t.queueWait == s.queueWait && t.spawned == s.spawned && t.reconnects == s.reconnects
            && |t.conns| == |s.conns|
  {
  }

  lemma {:induction false} PerformAllKeepsInv(s: State, steps: seq<Step>)
    requires Inv(s)
    ensures var t := PerformAll(s, steps);
            && Inv(t)
            && t.socket == s.socket && t.queueWait == s.queueWait && t.spawned == s.spawned && t.reconnects == s.reconnects
            && |t.conns| == |s.conns|
  {
    if steps != [] {
      var n := |steps| - 1;
      PerformAllKeepsInv(s, steps[..n]);
      PerformKeepsInv(PerformAll(s, steps[..n]), steps[n]);
      PerformKeepsClient(PerformAll(s, steps[..n]), steps[n]);
    }
  }

  lemma {:induction false} StopInstalledKeepsInv(s: State)
    requires Inv(s)
    ensures Inv(StopInstalled(s)) && StopInstalled(s).socket.None? && |StopInstalled(s).conns| == |s.conns|
    ensures StopInstalled(s).queueWait == s.queueWait && StopInstalled(s).reconnects == s.reconnects
  {
    if s.socket.Some? {
      StopKeepsInv(s, s.socket.value, true, false);
      WithoutSocket(Stop(s, s.socket.value, true, false));
    }
  }

  lemma {:induction false} UnlockedDisconnectKeepsInv(s: State, during: seq<Step>)
    requires Inv(s)
    ensures Inv(UnlockedDisconnect(s, during)) && UnlockedDisconnect(s, during).socket.None?
    ensures UnlockedDisconnect(s, during).reconnects == s.reconnects
  {
    StopInstalledKeepsInv(s);
    PerformAllKeepsInv(StopInstalled(s), during);
    WithoutQueue(PerformAll(StopInstalled(s), during));
  }

  lemma {:induction false} ConnectKeepsInv(s: State, refused: bool, dialed: bool, during: seq<Step>)
    requires Inv(s)
    ensures Inv(UnlockedConnect(s, refused, dialed, during))
  {
    UnlockedDisconnectKeepsInv(s, during);
    var t := if HasLeftovers(s) then UnlockedDisconnect(s, during) else s;
    WithFlags(t, false, false, t.resets + 1);
    InstallKeepsInv(ResetExpectedDisconnect(t));
  }

  lemma {:induction false} NextKeepsInv(s: State, a: Action)
    requires Inv(s)
    ensures Inv(Next(s, a))
  {
    match a
    case ConnectAction(refused, dialed, during) => ConnectKeepsInv(s, refused, dialed, during);
    case DisconnectAction(during) =>
      WithFlags(s, true, false, s.resets);
      UnlockedDisconnectKeepsInv(ExpectDisconnect(s), during);
    case ResetConnectionAction => ResetKeepsInv(s);
    case CallbackAction(cb) => if cb in s.callbacks && cb.gen < |s.conns| { OnDisconnectKeepsInv(s, cb); }
    case FinishAction(task) =>
      if task in s.tasks && (task.queueWait.Some? ==> ChannelClosed(s, task.queueWait.value)) { FinishKeepsInv(s, task); }
    case FreeAction(step) => PerformKeepsInv(s, step);
  }

  lemma {:induction false} ResetKeepsInv(s: State)
    requires Inv(s)
    ensures Inv(ResetConnection(s))
  {
    WithFlags(s, s.expected, true, s.resets);
    if s.socket.Some? {
      StopKeepsInv(s.(force := true), s.socket.value, true, true);
    }
  }

  lemma {:induction false} RunKeepsInv(actions: seq<Action>)
    ensures Inv(Run(actions)) && SocketExists(Run(actions))
  {
    if actions != [] {
      RunKeepsInv(actions[..|actions| - 1]);
      NextKeepsInv(Run(actions[..|actions| - 1]), actions[|actions| - 1]);
    }
  }

  /** An installed socket is the newest generation, and the queue channel kept is its own. */
  lemma {:induction false} SocketIsPairedWithItsQueue(actions: seq<Action>)
    ensures var s := Run(actions);
            s.socket.Some? ==> s.queueWait == s.socket && s.socket.value + 1 == |s.conns|
  {
    RunKeepsInv(actions);
  }

  /** A callback of another generation touches neither the client's fields nor any other generation. */
  lemma {:induction false} StaleCallbackChangesNothing(s: State, cb: Callback)
    requires cb.gen < |s.conns| && s.socket != Some(cb.gen)
    ensures var t, c := OnDisconnect(s, cb), s.conns[cb.gen];
            && t.(conns := s.conns, callbacks := s.callbacks) == s
            && t.conns == s.conns[cb.gen := c.(destroyed := true, handler := c.handler && c.destroyed)]
  {
  }

  /**
   finishDisconnect starts at most one reconnect per generation; at each one no socket was installed, no newer
   generation had ever been, the disconnect was not expected, and if the retired queue held a stream error that
   expects a disconnect, then the flags had been reset by a new connect or by the keepalive since.
   */
  lemma {:induction false} ReconnectsAreJustified(actions: seq<Action>)
    ensures var s := Run(actions);
            && (forall i, j :: 0 <= i < j < |s.reconnects| ==> s.reconnects[i].gen != s.reconnects[j].gen)
            && (forall i :: 0 <= i < |s.reconnects| ==> Justified(s.conns, s.reconnects[i]))
  {
    RunKeepsInv(actions);
  }

  /** When a queue's channel closes, every stream error it held at the end of its context was handled, in order. */
  lemma {:induction false} ClosedQueueHandledItsErrors(actions: seq<Action>, g: nat)
    requires ChannelClosed(Run(actions), g)
    ensures var c := Run(actions).conns[g];
            c.drained == StreamErrors(c.atEnd) + StreamErrors(c.late)
  {
    RunKeepsInv(actions);
    var s := Run(actions);
    var c := s.conns[g];
    assert ConnOk(c, s.expected, s.resets);
    assert c.drained + [] == c.drained;
    StreamErrorsConcat(c.atEnd, c.late);
  }
}
