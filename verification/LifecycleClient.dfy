/**
 The client whose fields the lifecycle changes (client.go): each method is proved to do the corresponding step.
 */
module LifecycleClient {
  import opened Prelude
  import opened Lifecycle
  import opened LifecycleLaws

  class Client {
    var socket: Option<nat>
    var handlerQueueWait: Option<nat>
    var expectedDisconnect: bool
    var forceAutoReconnect: bool
    // The world around the client: its sockets with their queues, and the goroutines it has started.
    var conns: seq<Conn>
    var tasks: set<Task>
    var callbacks: set<Callback>
    // History.
    var spawned: set<nat>
    var reconnects: seq<Decision>
    var resets: nat

    constructor ()
      ensures S() == INITIAL
    {
      socket, handlerQueueWait, expectedDisconnect, forceAutoReconnect := None, None, false, false;
      conns, tasks, callbacks, spawned, reconnects, resets := [], {}, {}, {}, [], 0;
    }

    ghost function S(): State
      reads this
    {
      State(socket, handlerQueueWait, expectedDisconnect, forceAutoReconnect, conns, tasks, callbacks, spawned, reconnects, resets)
    }

    method ExpectDisconnect()
      modifies this
      ensures S() == Lifecycle.ExpectDisconnect(old(S()))
      ensures old(Inv(S())) ==> Inv(S())
    {
      ghost var s := S();
      forceAutoReconnect := false;
      expectedDisconnect := true;
      if Inv(s) {
        WithFlags(s, true, false, resets);
      }
    }

    method ResetExpectedDisconnect()
      modifies this
      ensures S() == Lifecycle.ResetExpectedDisconnect(old(S()))
      ensures old(Inv(S())) ==> Inv(S())
    {
      ghost var s := S();
      forceAutoReconnect := false;
      expectedDisconnect := false;
      resets := resets + 1;
      if Inv(s) {
        WithFlags(s, false, false, resets);
      }
    }

    /** FrameSocket.Close */
    method CloseSocket(g: nat, remote: bool)
      requires Inv(S()) && g < |conns|
      modifies this
      ensures S() == FsClose(old(S()), g, remote)
      ensures Inv(S())
    {
      FsCloseKeepsInv(S(), g, remote);
      if conns[g].connected {
        if conns[g].handler {
          callbacks := callbacks + {Callback(g, remote)};
        }
        conns := conns[g := EndCtx(conns[g].(connected := false), resets)];
      }
    }

    /** NoiseSocket.Stop */
    method StopSocket(g: nat, disconnect: bool, allowOnDisconnect: bool)
      requires Inv(S()) && g < |conns|
      modifies this
      ensures S() == Stop(old(S()), g, disconnect, allowOnDisconnect)
      ensures Inv(S())
    {
      StopKeepsInv(S(), g, false, allowOnDisconnect);
      if !conns[g].destroyed {
        var handler := conns[g].handler;
        if !allowOnDisconnect {
          handler := false;
        }
        conns := conns[g := conns[g].(destroyed := true, handler := handler)];
        assert S() == Stop(old(S()), g, false, allowOnDisconnect);
        if disconnect {
          CloseSocket(g, false);
        }
      }
    }

    /** Waits for the queue's channel while others take the given steps. */
    method UnlockedDisconnect(during: seq<Step>)
      requires Inv(S())
      modifies this
      ensures S() == Lifecycle.UnlockedDisconnect(old(S()), during)
      ensures Inv(S()) && socket == None && reconnects == old(reconnects)
    {
      UnlockedDisconnectKeepsInv(S(), during);
      StopInstalledKeepsInv(S());
      if socket.Some? {
        StopSocket(socket.value, true, false);
        socket := None;
      }
      if handlerQueueWait.Some? {
        Meanwhile(during);
        var q := handlerQueueWait.value;
        if q < |conns| && conns[q].phase == Closed {
          handlerQueueWait := None;
        }
      }
    }

    /** What others do while the lock is held. */
    method Meanwhile(steps: seq<Step>)
      requires Inv(S())
      modifies this
      ensures S() == PerformAll(old(S()), steps)
      ensures Inv(S()) && socket == old(socket) && handlerQueueWait == old(handlerQueueWait) && reconnects == old(reconnects)
    {
      PerformAllKeepsInv(S(), steps);
      for i := 0 to |steps|
        invariant Inv(S()) && S() == PerformAll(old(S()), steps[..i])
      {
        assert steps[..i + 1][..i] == steps[..i];
        PerformStep(steps[i]);
      }
      assert steps[..|steps|] == steps;
    }

    /** One step without the socket lock. */
    method PerformStep(step: Step)
      requires Inv(S())
      modifies this
      ensures S() == Perform(old(S()), step)
      ensures Inv(S())
    {
      PerformKeepsInv(S(), step);
      match step
      case RemoteClose(g) => if g < |conns| { CloseSocket(g, true); }
      case Cancel(g) => if g < |conns| { conns := conns[g := EndCtx(conns[g], resets)]; }
      case Abandon(task) => tasks := tasks - {task};
      case Expect => ExpectDisconnect();
      case ClearFlags => ResetExpectedDisconnect();
      case Arrive(g, n, dropped) => if g < |conns| { EnqueueNode(g, n, dropped); }
      case _ => QueueStep(step);
    }

    /** One turn of a handler queue loop, or of its deferred drain. */
    method QueueStep(step: Step)
      requires Inv(S()) && (step.TakeNext? || step.Handled? || step.Slow? || step.CtxSeen? || step.DrainNext?)
      modifies this
      ensures S() == Perform(old(S()), step)
      ensures Inv(S())
    {
      PerformKeepsInv(S(), step);
      var g := step.gen;
      if g >= |conns| {
        return;
      }
      var c := conns[g];
      match step
      case TakeNext(_) =>
        if c.phase == Running && c.queue != [] {
          if c.ctxDone {
            DrainNode(g);
          } else {
            conns := conns[g := c.(queue := c.queue[1..], phase := Handling(c.queue[0]))];
          }
        }
      case Handled(_) =>
        if c.phase.Handling? {
          conns := conns[g := c.(phase := Running)];
          HandleStreamError(c.phase.node);
        }
      case Slow(_) => if c.phase.Handling? { conns := conns[g := c.(phase := Running, slow := c.slow || c.ctxDone)]; }
      case CtxSeen(_) => if c.phase == Running && c.ctxDone { conns := conns[g := c.(phase := Draining)]; }
      case DrainNext(_) =>
        if c.phase == Draining {
          if c.queue != [] {
            DrainNode(g);
          } else {
            conns := conns[g := c.(phase := Closed)];
          }
        }
    }

    method UnlockedConnect(refused: bool, dialed: bool, during: seq<Step>)
      requires Inv(S())
      modifies this
      ensures S() == Lifecycle.UnlockedConnect(old(S()), refused, dialed, during)
      ensures Inv(S())
    {
      ConnectKeepsInv(S(), refused, dialed, during);
      if refused {
        return;
      }
      if socket.None? && handlerQueueWait.Some? {
        UnlockedDisconnect(during);
      }
      if socket.Some? {
        if conns[socket.value].connected {
          return;
        }
        UnlockedDisconnect(during);
      }
      ResetExpectedDisconnect();
      if !dialed {
        return;
      }
      socket := Some(|conns|);
      handlerQueueWait := Some(|conns|);
      conns := conns + [NEW_CONN];
    }

    method OnDisconnect(cb: Callback)
      requires Inv(S()) && cb.gen < |conns|
      modifies this
      ensures S() == Lifecycle.OnDisconnect(old(S()), cb)
      ensures Inv(S())
    {
      OnDisconnectKeepsInv(S(), cb);
      callbacks := callbacks - {cb};
      StopSocket(cb.gen, false, false);
      if socket == Some(cb.gen) {
        socket := None;
        tasks := tasks + {Task(handlerQueueWait, cb.remote)};
        spawned := spawned + {cb.gen};
      }
    }

    /** finishDisconnect once its queue channel is closed; true if a reconnect was started. */
    method FinishDisconnect(task: Task) returns (reconnecting: bool)
      requires Inv(S()) && task in tasks && (task.queueWait.Some? ==> ChannelClosed(S(), task.queueWait.value))
      modifies this
      ensures S() == Lifecycle.FinishDisconnect(old(S()), task)
      ensures Inv(S())
      ensures reconnecting <==> |reconnects| == |old(reconnects)| + 1
      ensures reconnecting ==> forall i :: 0 <= i < |old(reconnects)| ==> old(reconnects)[i].gen != task.queueWait
    {
      FinishKeepsInv(S(), task);
      reconnecting := false;
      tasks := tasks - {task};
      if socket.Some? || handlerQueueWait != task.queueWait {
        return;
      }
      if !expectedDisconnect {
        var forced := forceAutoReconnect;
        forceAutoReconnect := false;
        if forced || task.remote {
          reconnects := reconnects + [Decision(task.queueWait, |conns|, socket, expectedDisconnect, resets)];
          reconnecting := true;
        }
      }
    }

    method Disconnect(during: seq<Step>)
      requires Inv(S())
      modifies this
      ensures S() == Lifecycle.Disconnect(old(S()), during)
      ensures Inv(S()) && socket == None && reconnects == old(reconnects)
    {
      ExpectDisconnect();
      UnlockedDisconnect(during);
    }

    method ResetConnection()
      requires Inv(S())
      modifies this
      ensures S() == Lifecycle.ResetConnection(old(S()))
      ensures Inv(S())
    {
      WithFlags(S(), expectedDisconnect, true, resets);
      forceAutoReconnect := true;
      if socket.Some? {
        StopSocket(socket.value, true, true);
      }
    }

    method EnqueueNode(g: nat, n: Node, dropped: bool)
      requires Inv(S()) && g < |conns|
      modifies this
      ensures S() == Enqueue(old(S()), g, n, dropped)
      ensures Inv(S())
    {
      EnqueueKeepsInv(S(), g, n, dropped);
      var c := conns[g];
      if c.ctxDone && dropped {
        return;
      }
      if |c.queue| < HANDLER_QUEUE_SIZE {
        conns := conns[g := c.(queue := c.queue + [n], late := if c.ctxDone && c.phase != Closed then c.late + [n] else c.late)];
      } else if !c.ctxDone {
        forceAutoReconnect := true;
      }
    }

    method HandleStreamError(n: Node)
      modifies this
      ensures S() == Handle(old(S()), n)
      ensures old(Inv(S())) ==> Inv(S())
    {
      if n.isStreamError {
        if n.code == "515" {
        } else if n.code == "401" && n.conflict == "device_removed" {
          ExpectDisconnect();
        } else if n.conflict == "replaced" {
          ExpectDisconnect();
        } else if n.code == "503" {
        } else if (n.code == "413" || n.code == "414") && n.catRefreshFails {
          ExpectDisconnect();
        }
      }
    }

    /** One node read after the context ended: only a stream error is handled. */
    method DrainNode(g: nat)
      requires Inv(S()) && g < |conns| && conns[g].queue != [] && conns[g].ctxDone
      requires conns[g].phase.Running? || conns[g].phase.Draining?
      modifies this
      ensures S() == DrainOne(old(S()), g)
      ensures Inv(S())
    {
      DrainOneKeepsInv(S(), g);
      var c, n := conns[g], conns[g].queue[0];
      conns := conns[g := c.(queue := c.queue[1..], phase := Draining, drained := if n.isStreamError then c.drained + [n] else c.drained)];
      if n.isStreamError {
        HandleStreamError(n);
      }
    }

    /** The deferred part of handlerQueueLoop: empties the queue, handling stream errors only, then closes the channel. */
    method DrainAndClose(g: nat)
      requires Inv(S()) && g < |conns| && conns[g].phase == Draining
      modifies this
      ensures Inv(S()) && ChannelClosed(S(), g)
      ensures conns[g].drained == old(conns[g].drained + StreamErrors(conns[g].queue))
      ensures expectedDisconnect <==> old(expectedDisconnect || AnyExpects(StreamErrors(conns[g].queue)))
      ensures socket == old(socket) && handlerQueueWait == old(handlerQueueWait) && reconnects == old(reconnects)
    {
      ghost var all := conns[g].queue;
      while conns[g].queue != []
        invariant Inv(S()) && g < |conns| && conns[g].phase == Draining
        invariant conns[g].drained + StreamErrors(conns[g].queue) == old(conns[g].drained) + StreamErrors(all)
        invariant expectedDisconnect || AnyExpects(StreamErrors(conns[g].queue)) <==> old(expectedDisconnect) || AnyExpects(StreamErrors(all))
        invariant socket == old(socket) && handlerQueueWait == old(handlerQueueWait) && reconnects == old(reconnects)
        decreases |conns[g].queue|
      {
        DrainOneFacts(S(), g);
        assert ConnOk(conns[g], expectedDisconnect, resets);
        DrainNode(g);
      }
      assert ConnOk(conns[g], expectedDisconnect, resets);
      PhaseKeepsInv(S(), g, Closed);
      conns := conns[g := conns[g].(phase := Closed)];
      assert conns[g].drained + [] == conns[g].drained;
    }
  }

  lemma {:induction false} DrainOneFacts(s: State, g: nat)
    requires g < |s.conns| && s.conns[g].queue != []
    ensures var t, c, d := DrainOne(s, g), s.conns[g], DrainOne(s, g).conns[g];
            && d.drained + StreamErrors(d.queue) == c.drained + StreamErrors(c.queue) && d.phase == Draining && d.queue == c.queue[1..]
            && (t.expected || AnyExpects(StreamErrors(d.queue)) <==> s.expected || AnyExpects(StreamErrors(c.queue)))
            && |t.conns| == |s.conns| && t.socket == s.socket && t.queueWait == s.queueWait && t.reconnects == s.reconnects
  {
  }
}
