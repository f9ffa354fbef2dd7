/**
 When a lost connection comes back by itself: never after an expected disconnect until the flags are cleared again, and
 always, exactly once, after a loss that nothing disturbs.
 */
module LifecycleOutcomes {
  import opened Prelude
  import opened Lifecycle
  import opened LifecycleLaws

  // ---------- staying away ----------

  /** The only steps that clear the expectation: connecting again, and the keepalive's own reconnect. */
  predicate Clears(a: Action) {
    || a.ConnectAction?
    || a == FreeAction(ClearFlags)
    || (a.DisconnectAction? && ClearFlags in a.during)
  }

  lemma {:induction false} StepKeepsExpectation(s: State, a: Step)
    requires s.expected && a != ClearFlags
    ensures Perform(s, a).expected
  {
  }

  lemma {:induction false} StepsKeepExpectation(s: State, steps: seq<Step>)
    requires s.expected && ClearFlags !in steps
    ensures PerformAll(s, steps).expected
  {
    if steps != [] {
      var n := |steps| - 1;
      assert steps[n] in steps;
      StepsKeepExpectation(s, steps[..n]);
      StepKeepsExpectation(PerformAll(s, steps[..n]), steps[n]);
    }
  }

  lemma {:induction false} ExpectationStays(s: State, a: Action)
    requires Inv(s) && (s.expected || a.DisconnectAction?) && !Clears(a)
    ensures Next(s, a).expected && Next(s, a).reconnects == s.reconnects
  {
    match a
    case DisconnectAction(during) =>
      var t := ExpectDisconnect(s);
      WithFlags(s, true, false, s.resets);
      StopInstalledKeepsInv(t);
      UnlockedDisconnectKeepsInv(t, during);
      StepsKeepExpectation(StopInstalled(t), during);
    case FreeAction(step) =>
      StepKeepsExpectation(s, step);
      PerformKeepsClient(s, step);
    case _ =>
  }

  lemma {:induction false} RunSnoc(actions: seq<Action>, a: Action)
    ensures Inv(Run(actions)) && Run(actions + [a]) == Next(Run(actions), a)
  {
    RunKeepsInv(actions);
    assert (actions + [a])[..|actions|] == actions;
  }

  /** Once a disconnect is expected, finishDisconnect starts no reconnect until the flags are cleared. */
  lemma {:induction false} QuietWhileExpected(before: seq<Action>, after: seq<Action>)
    requires Run(before).expected && forall i :: 0 <= i < |after| ==> !Clears(after[i])
    ensures Run(before + after).expected && Run(before + after).reconnects == Run(before).reconnects
  {
    if after == [] {
      assert before + after == before;
    } else {
      var n := |after| - 1;
      QuietWhileExpected(before, after[..n]);
      QuietStep(before + after[..n], after[n]);
      assert before + after[..n] + [after[n]] == before + after;
    }
  }

  lemma {:induction false} QuietStep(actions: seq<Action>, a: Action)
    requires (Run(actions).expected || a.DisconnectAction?) && !Clears(a)
    ensures Run(actions + [a]).expected && Run(actions + [a]).reconnects == Run(actions).reconnects
  {
    RunSnoc(actions, a);
    ExpectationStays(Run(actions), a);
  }

  /** Disconnect is final: whatever was under way, no reconnect starts until the flags are cleared. */
  lemma {:induction false} DisconnectIsFinal(before: seq<Action>, during: seq<Step>, after: seq<Action>)
    requires ClearFlags !in during && forall i :: 0 <= i < |after| ==> !Clears(after[i])
    ensures Run(before + [DisconnectAction(during)] + after).reconnects == Run(before).reconnects
  {
    QuietStep(before, DisconnectAction(during));
    QuietWhileExpected(before + [DisconnectAction(during)], after);
  }

  // ---------- coming back ----------

  /** An installed, live connection. */
  predicate Healthy(s: State, g: nat) {
    s.socket == Some(g) && g < |s.conns| && !s.expected && s.conns[g].connected
  }

  /** A callback is only scheduled by the closing of its socket. */
  ghost predicate CallbacksOfClosed(s: State) {
    forall cb :: cb in s.callbacks ==> cb.gen < |s.conns| && !s.conns[cb.gen].connected
  }

  predicate IsLoopStep(a: Step) { a.TakeNext? || a.Handled? || a.Slow? || a.CtxSeen? || a.DrainNext? }

  lemma {:induction false} LoopStepKeepsCallbacks(s: State, a: Step)
    requires CallbacksOfClosed(s) && IsLoopStep(a)
    ensures CallbacksOfClosed(Perform(s, a))
  {
  }

  lemma {:induction false} StepKeepsCallbacks(s: State, a: Step)
    requires CallbacksOfClosed(s)
    ensures CallbacksOfClosed(Perform(s, a))
  {
    if IsLoopStep(a) {
      LoopStepKeepsCallbacks(s, a);
    }
  }

  lemma {:induction false} StepsKeepCallbacks(s: State, steps: seq<Step>)
    requires CallbacksOfClosed(s)
    ensures CallbacksOfClosed(PerformAll(s, steps))
  {
    if steps != [] {
      StepsKeepCallbacks(s, steps[..|steps| - 1]);
      StepKeepsCallbacks(PerformAll(s, steps[..|steps| - 1]), steps[|steps| - 1]);
    }
  }

  lemma {:induction false} DisconnectKeepsCallbacks(s: State, during: seq<Step>)
    requires SocketExists(s) && CallbacksOfClosed(s)
    ensures CallbacksOfClosed(UnlockedDisconnect(s, during))
  {
    if s.socket.Some? {
      StopKeepsCallbacks(s, s.socket.value, true, false);
    }
    StepsKeepCallbacks(StopInstalled(s), during);
  }

  lemma {:induction false} RunKeepsCallbacks(actions: seq<Action>)
    ensures CallbacksOfClosed(Run(actions))
  {
    if actions != [] {
      var front, a := actions[..|actions| - 1], actions[|actions| - 1];
      RunKeepsCallbacks(front);
      RunSnoc(front, a);
      assert front + [a] == actions;
      NextKeepsCallbacks(Run(front), a);
    }
  }

  lemma {:induction false} NextKeepsCallbacks(s: State, a: Action)
    requires SocketExists(s) && CallbacksOfClosed(s)
    ensures CallbacksOfClosed(Next(s, a))
  {
    match a
    case ConnectAction(_, _, during) => DisconnectKeepsCallbacks(s, during);
    case DisconnectAction(during) => DisconnectKeepsCallbacks(ExpectDisconnect(s), during);
    case ResetConnectionAction => if s.socket.Some? { StopKeepsCallbacks(s.(force := true), s.socket.value, true, true); }
    case CallbackAction(cb) =>
      if cb in s.callbacks {
        StopKeepsCallbacks(s.(callbacks := s.callbacks - {cb}), cb.gen, false, false);
      }
    case FinishAction(_) =>
    case FreeAction(step) => StepKeepsCallbacks(s, step);
  }

  lemma {:induction false} StopKeepsCallbacks(s: State, g: nat, disconnect: bool, allow: bool)
    requires g < |s.conns| && CallbacksOfClosed(s)
    ensures CallbacksOfClosed(Stop(s, g, disconnect, allow))
  {
  }

  /** Steps that interfere: connecting, disconnecting, clearing the flags, or abandoning the task of g. */
  predicate Disturbs(a: Action, g: nat) {
    || a.ConnectAction? || a.DisconnectAction?
    || (a.FreeAction? && (a.step.ClearFlags? || (a.step.Abandon? && a.step.task.queueWait == Some(g))))
  }

  /** No step interferes, and none makes the disconnect expected. */
  ghost predicate Undisturbed(before: seq<Action>, after: seq<Action>, g: nat) {
    forall i :: 0 <= i < |after| ==> CalmStep(before, after, g, i)
  }

  ghost predicate CalmStep(before: seq<Action>, after: seq<Action>, g: nat, i: nat)
    requires i < |after|
  {
    !Disturbs(after[i], g) && !Run(before + after[..i + 1]).expected
  }

  /** The reconnect decision for g is still to come. */
  ghost predicate Waiting(s: State, g: nat) { exists t :: t in s.tasks && t.queueWait == Some(g) }

  /** Where generation g stands between its health and its reconnect; `base` are the reconnects started before. */
  ghost predicate OnItsWay(s: State, g: nat, base: seq<Decision>) {
    && !s.expected && s.queueWait == Some(g) && g < |s.conns|
    && if s.socket == Some(g) then
         s.reconnects == base && !Waiting(s, g) && (Callback(g, false) in s.callbacks ==> s.force)
       else
         && s.socket == None && g in s.spawned
         && if Waiting(s, g) then
              s.reconnects == base && forall t :: t in s.tasks && t.queueWait == Some(g) ==> t.remote || s.force
            else
              |s.reconnects| == |base| + 1 && s.reconnects[..|base|] == base && s.reconnects[|base|].gen == Some(g)
  }

  lemma {:induction false} FreeStepOnItsWay(s: State, a: Step, g: nat, base: seq<Decision>)
    requires Inv(s) && OnItsWay(s, g, base) && !Disturbs(FreeAction(a), g) && !Perform(s, a).expected
    ensures OnItsWay(Perform(s, a), g, base)
  {
    var t := Perform(s, a);
    PerformKeepsClient(s, a);
    StepKeepsTasks(s, a);
    assert Waiting(s, g) <==> Waiting(t, g) by {
      if x :| x in s.tasks && x.queueWait == Some(g) {
        assert x in t.tasks;
      }
    }
  }

  /** A step that neither expects a disconnect nor clears flags keeps a forced reconnect, and schedules remote callbacks only. */
  lemma {:induction false} StepKeepsTasks(s: State, a: Step)
    requires !Perform(s, a).expected && !a.ClearFlags?
    ensures var t := Perform(s, a);
            && t.tasks == (if a.Abandon? then s.tasks - {a.task} else s.tasks)
            && (s.force ==> t.force)
            && (forall cb :: cb in t.callbacks ==> cb in s.callbacks || cb.remote)
  {
  }

  lemma {:induction false} ResetOnItsWay(s: State, g: nat, base: seq<Decision>)
    requires Inv(s) && OnItsWay(s, g, base)
    ensures OnItsWay(ResetConnection(s), g, base)
  {
    var t := ResetConnection(s);
    assert t.tasks == s.tasks && t.force && t.socket == s.socket && t.queueWait == s.queueWait && t.reconnects == s.reconnects;
  }

  lemma {:induction false} CallbackOnItsWay(s: State, cb: Callback, g: nat, base: seq<Decision>)
    requires Inv(s) && OnItsWay(s, g, base) && cb in s.callbacks && cb.gen < |s.conns|
    ensures OnItsWay(OnDisconnect(s, cb), g, base)
  {
    var t := OnDisconnect(s, cb);
    assert t.force == s.force && t.expected == s.expected && t.queueWait == s.queueWait && t.reconnects == s.reconnects;
    if s.socket == Some(g) && cb.gen == g {
      assert Task(Some(g), cb.remote) in t.tasks;
    } else {
      assert t.tasks == s.tasks && t.socket == s.socket && t.spawned == s.spawned;
    }
  }

  lemma {:induction false} FinishOnItsWay(s: State, task: Task, g: nat, base: seq<Decision>)
    requires Inv(s) && OnItsWay(s, g, base) && task in s.tasks
    ensures OnItsWay(FinishDisconnect(s, task), g, base)
  {
    var t := FinishDisconnect(s, task);
    assert t.tasks == s.tasks - {task};
    if task.queueWait == Some(g) {
      assert Waiting(s, g);
      assert !Waiting(t, g);
    } else if x :| x in s.tasks && x.queueWait == Some(g) {
      assert x in t.tasks;
    }
  }

  lemma {:induction false} StepOnItsWay(s: State, a: Action, g: nat, base: seq<Decision>)
    requires Inv(s) && OnItsWay(s, g, base) && !Disturbs(a, g) && !Next(s, a).expected
    ensures OnItsWay(Next(s, a), g, base)
  {
    match a
    case ResetConnectionAction => ResetOnItsWay(s, g, base);
    case CallbackAction(cb) => if cb in s.callbacks && cb.gen < |s.conns| { CallbackOnItsWay(s, cb, g, base); }
    case FinishAction(task) => if task in s.tasks { FinishOnItsWay(s, task, g, base); }
    case FreeAction(step) => FreeStepOnItsWay(s, step, g, base);
  }

  lemma {:induction false} HealthyIsOnItsWay(before: seq<Action>, g: nat)
    requires Healthy(Run(before), g)
    ensures OnItsWay(Run(before), g, Run(before).reconnects)
  {
    RunKeepsInv(before);
    RunKeepsCallbacks(before);
  }

  lemma {:induction false} UndisturbedPrefix(before: seq<Action>, after: seq<Action>, g: nat)
    requires after != [] && Undisturbed(before, after, g)
    ensures Undisturbed(before, after[..|after| - 1], g)
    ensures !Disturbs(after[|after| - 1], g) && !Run(before + after).expected
  {
    var n := |after| - 1;
    assert after[..n + 1] == after;
    assert CalmStep(before, after, g, n);
    forall i | 0 <= i < n ensures CalmStep(before, after[..n], g, i) {
      assert CalmStep(before, after, g, i);
      assert after[..n][..i + 1] == after[..i + 1];
    }
  }

  lemma {:induction false} RunOnItsWay(before: seq<Action>, after: seq<Action>, g: nat)
    requires Healthy(Run(before), g) && Undisturbed(before, after, g)
    ensures OnItsWay(Run(before + after), g, Run(before).reconnects)
  {
    if after == [] {
      assert before + after == before;
      HealthyIsOnItsWay(before, g);
    } else {
      var n := |after| - 1;
      UndisturbedPrefix(before, after, g);
      RunOnItsWay(before, after[..n], g);
      assert before + after[..n] + [after[n]] == before + after;
      RunStepOnItsWay(before + after[..n], after[n], g, Run(before).reconnects);
    }
  }

  lemma {:induction false} RunStepOnItsWay(actions: seq<Action>, a: Action, g: nat, base: seq<Decision>)
    requires OnItsWay(Run(actions), g, base) && !Disturbs(a, g) && !Run(actions + [a]).expected
    ensures OnItsWay(Run(actions + [a]), g, base)
  {
    RunSnoc(actions, a);
    StepOnItsWay(Run(actions), a, g, base);
  }

  /**
   From a healthy connection, through any steps that do not disturb it, however the connection is lost and its queue
   drained: a reconnect for its generation is started exactly if its finishDisconnect has run, and then exactly one.
   */
  lemma {:induction false} LostConnectionReconnects(before: seq<Action>, after: seq<Action>, g: nat)
    requires Healthy(Run(before), g) && Undisturbed(before, after, g)
    ensures var s, t := Run(before), Run(before + after);
            if g in t.spawned && !Waiting(t, g) then
              |t.reconnects| == |s.reconnects| + 1 && t.reconnects[..|s.reconnects|] == s.reconnects
              && t.reconnects[|s.reconnects|].gen == Some(g)
            else t.reconnects == s.reconnects
  {
    RunOnItsWay(before, after, g);
    RunKeepsInv(before + after);
  }

  // ---------- such a loss, step by step ----------

  /** A healthy connection with nothing queued or handled. */
  predicate Idle(s: State, g: nat) {
    && Healthy(s, g) && s.queueWait == Some(g)
    && var c := s.conns[g];
       !c.ctxDone && !c.destroyed && c.handler && c.queue == [] && c.phase == Running
  }

  /** The end of the connection, by ResetConnection or from the other side, up to the callback. */
  function Losing(g: nat, reset: bool): seq<Action> {
    [if reset then ResetConnectionAction else FreeAction(RemoteClose(g))] + [CallbackAction(Callback(g, !reset))]
  }

  /** The queue loop notices the end of the context and closes the empty queue; then comes the reconnect decision. */
  function Finishing(g: nat, reset: bool): seq<Action> {
    [FreeAction(CtxSeen(g))] + [FreeAction(DrainNext(g))] + [FinishAction(Task(Some(g), !reset))]
  }

  /** A retired generation whose task waits for the queue to close. */
  predicate Retired(t: State, g: nat, reset: bool) {
    && t.socket == None && t.queueWait == Some(g) && g < |t.conns| && !t.expected && (t.force || !reset)
    && Task(Some(g), !reset) in t.tasks
    && t.conns[g].ctxDone && t.conns[g].phase == Running && t.conns[g].queue == []
  }

  lemma {:induction false} LosingRetires(before: seq<Action>, g: nat, reset: bool)
    requires Idle(Run(before), g)
    ensures var t := Run(before + Losing(g, reset)); Retired(t, g, reset) && t.reconnects == Run(before).reconnects
  {
    var a, cb := Losing(g, reset)[0], Losing(g, reset)[1];
    RunSnoc(before, a);
    RunSnoc(before + [a], cb);
    assert before + [a] + [cb] == before + Losing(g, reset);
  }

  lemma {:induction false} QueueCloses(s: State, g: nat, reset: bool)
    requires Retired(s, g, reset)
    ensures Perform(Perform(s, CtxSeen(g)), DrainNext(g)) == SetPhase(s, g, Closed)
  {
    assert SetPhase(SetPhase(s, g, Draining), g, Closed).conns == SetPhase(s, g, Closed).conns;
  }

  lemma {:induction false} FinishingReconnects(before: seq<Action>, g: nat, reset: bool)
    requires Retired(Run(before), g, reset)
    ensures var s, t := Run(before), Run(before + Finishing(g, reset));
            && |t.reconnects| == |s.reconnects| + 1 && t.reconnects[..|s.reconnects|] == s.reconnects
            && t.reconnects[|s.reconnects|].gen == Some(g) && t.socket == None && !t.force
  {
    var a, b, c := FreeAction(CtxSeen(g)), FreeAction(DrainNext(g)), FinishAction(Task(Some(g), !reset));
    RunSnoc(before, a);
    RunSnoc(before + [a], b);
    RunSnoc(before + [a] + [b], c);
    QueueCloses(Run(before), g, reset);
    assert before + [a] + [b] + [c] == before + Finishing(g, reset);
  }

  /** An idle connection that is reset or closed remotely, and then left alone, starts its one reconnect. */
  lemma {:induction false} IdleConnectionRecovers(before: seq<Action>, g: nat, reset: bool)
    requires Idle(Run(before), g)
    ensures var s, t := Run(before), Run(before + Losing(g, reset) + Finishing(g, reset));
            && |t.reconnects| == |s.reconnects| + 1 && t.reconnects[..|s.reconnects|] == s.reconnects
            && t.reconnects[|s.reconnects|].gen == Some(g) && t.socket == None && !t.force
  {
    LosingRetires(before, g, reset);
    FinishingReconnects(before + Losing(g, reset), g, reset);
  }

  // ---------- waiting for the queue ----------

  /** Disconnecting from an idle live connection forgets the queue's channel if its loop gets to close it in time. */
  lemma {:induction false} DisconnectForgetsQueue(s: State, g: nat)
    requires Inv(s) && Idle(s, g)
    ensures UnlockedDisconnect(s, [CtxSeen(g), DrainNext(g)]).queueWait == None
    ensures UnlockedDisconnect(s, []).queueWait == Some(g)
  {
    var t, steps := StopInstalled(s), [CtxSeen(g), DrainNext(g)];
    assert t.conns[g].ctxDone && t.conns[g].phase == Running && t.conns[g].queue == [];
    assert steps[..1] == [CtxSeen(g)] && steps[..1][..0] == [];
    assert PerformAll(t, steps[..1]) == SetPhase(t, g, Draining);
    assert PerformAll(t, steps) == SetPhase(SetPhase(t, g, Draining), g, Closed);
  }
}
