/**
 Every interleaving of prekey uploads (uploadPreKeys in prekeys.go), retry keys, lost answers and restarts,
 against a remote that may answer anything.
 */
module PreKeyProtocol {
  import opened Prelude
  import opened RemotePreKeys

  /** uploadPreKeys holds its lock from GetOrGenPreKeys to MarkPreKeysAsUploaded. */
  datatype Uploader =
    | Idle
    | Uploading(batchId: string, ids: seq<nat>)
    | Uploaded(batchId: string, ids: seq<nat>)

  datatype Event =
    | HandedOut(batchId: string, ids: seq<nat>)
    | IqSucceeded(batchId: string, ids: seq<nat>)
    | Called(call: Call)
    | RetryKey(id: nat)
    | Restarted

  datatype System = System(adapter: Adapter, uploader: Uploader, log: seq<Event>)

  datatype Action =
    | Get(count: nat, ackOk: bool, prepared: Prepared)
    | Iq(ok: bool)
    | Mark(ackOk: bool)
    | GenOne(generated: Prepared, markOk: bool)
    | Restart

  const START := System(FRESH_ADAPTER, Idle, [])

  /** The log with the calls of one operation appended. */
  function Append(log: seq<Event>, calls: seq<Call>): seq<Event> {
    if calls == [] then log else Append(log, calls[..|calls| - 1]) + [Called(calls[|calls| - 1])]
  }

  /** One atomic step; the upload lock disables the steps that are not the uploader's turn. */
  function Next(s: System, a: Action): System {
    match a
    case Get(count, ackOk, prepared) =>
      if !s.uploader.Idle? then s
      else
        var r := GetSpec(s.adapter, count, ackOk, prepared);
        var log := Append(s.log, r.calls);
        if r.ids.None? then System(r.adapter, Idle, log)
        else System(r.adapter, Uploading(r.adapter.batchId, r.ids.value), log + [HandedOut(r.adapter.batchId, r.ids.value)])
    case Iq(ok) =>
      if !s.uploader.Uploading? then s
      else if !ok then s.(uploader := Idle)
      else System(s.adapter, Uploaded(s.uploader.batchId, s.uploader.ids), s.log + [IqSucceeded(s.uploader.batchId, s.uploader.ids)])
    case Mark(ackOk) =>
      if !s.uploader.Uploaded? || s.uploader.ids == [] then s
      else
        var r := MarkSpec(s.adapter, s.uploader.ids[|s.uploader.ids| - 1], ackOk);
        System(r.adapter, Idle, Append(s.log, r.calls))
    case GenOne(generated, markOk) =>
      var r := GenSpec(s.adapter, generated, markOk);
      var log := Append(s.log, r.calls);
      System(r.adapter, s.uploader, if r.ids.Some? && r.ids.value != [] then log + [RetryKey(r.ids.value[0])] else log)
    case Restart => System(FRESH_ADAPTER, Idle, s.log + [Restarted])
  }

  function Run(s: System, actions: seq<Action>): System {
    if actions == [] then s else Next(Run(s, actions[..|actions| - 1]), actions[|actions| - 1])
  }

  // ---------- what a log says ----------

  datatype Captured = Captured(batchId: string, ids: seq<nat>)

  /** The batch whose acknowledgement failed in this lifetime and has not succeeded since. */
  function Outstanding(log: seq<Event>): Option<Captured> {
    if log == [] then None
    else
      match log[|log| - 1]
      case Called(AckCall(b, ids, ok)) => if ok then None else Some(Captured(b, ids))
      case Restarted => None
      case _ => Outstanding(log[..|log| - 1])
  }

  /** The list handed out last in this lifetime and not acknowledged. */
  function Pending(log: seq<Event>): Captured {
    if log == [] then Captured("", [])
    else
      match log[|log| - 1]
      case HandedOut(b, ids) => Captured(b, ids)
      case Called(AckCall(_, _, true)) => Captured("", [])
      case Restarted => Captured("", [])
      case _ => Pending(log[..|log| - 1])
  }

  /** The complete list was handed out, and then its upload succeeded. */
  ghost predicate WasUploaded(log: seq<Event>, b: string, ids: seq<nat>) {
    exists q, r :: 0 <= q < r < |log| && log[q] == HandedOut(b, ids) && log[r] == IqSucceeded(b, ids)
  }

  /** The rule each event obeys, given what happened before it. */
  ghost predicate Lawful(before: seq<Event>, e: Event) {
    match e
    case Called(AckCall(b, ids, _)) =>
      WasUploaded(before, b, ids) && (Outstanding(before).None? || Outstanding(before).value == Captured(b, ids))
    case Called(PrepareCall(_)) => Outstanding(before).None?
    case Called(MarkCall(ids)) => forall id :: id in ids ==> id !in Pending(before).ids
    case RetryKey(id) => id !in Pending(before).ids
    case _ => true
  }

  ghost predicate LawfulLog(log: seq<Event>) {
    forall p :: 0 <= p < |log| ==> Lawful(log[..p], log[p])
  }

  /** What links the adapter and the uploader to the log, in every reachable state. */
  ghost predicate Inv(s: System) {
    && LawfulLog(s.log)
    && Outstanding(s.log) == (if s.adapter.awaiting then Some(Captured(s.adapter.batchId, s.adapter.ids)) else None)
    && Pending(s.log) == Captured(s.adapter.batchId, s.adapter.ids)
    && (s.adapter.awaiting ==> WasUploaded(s.log, s.adapter.batchId, s.adapter.ids))
    && match s.uploader
       case Idle => true
       case Uploading(b, ids) =>
         && !s.adapter.awaiting && s.adapter == Adapter(b, ids, false) && ids != []
         && exists q :: 0 <= q < |s.log| && s.log[q] == HandedOut(b, ids)
       case Uploaded(b, ids) =>
         && !s.adapter.awaiting && s.adapter == Adapter(b, ids, false) && ids != [] && WasUploaded(s.log, b, ids)
  }

  // ---------- extending a log ----------

  lemma {:induction false} LogExtends(log: seq<Event>, e: Event)
    requires LawfulLog(log) && Lawful(log, e)
    ensures LawfulLog(log + [e])
  {
    forall p | 0 <= p < |log + [e]| ensures Lawful((log + [e])[..p], (log + [e])[p]) {
      if p < |log| {
        assert (log + [e])[..p] == log[..p];
      } else {
        assert (log + [e])[..p] == log;
      }
    }
  }

  lemma {:induction false} UploadedStays(log: seq<Event>, e: Event, b: string, ids: seq<nat>)
    requires WasUploaded(log, b, ids)
    ensures WasUploaded(log + [e], b, ids)
  {
    var q, r :| 0 <= q < r < |log| && log[q] == HandedOut(b, ids) && log[r] == IqSucceeded(b, ids);
    assert (log + [e])[q] == HandedOut(b, ids) && (log + [e])[r] == IqSucceeded(b, ids);
  }

  lemma {:induction false} Extended(log: seq<Event>, e: Event)
    ensures (log + [e])[..|log|] == log && (log + [e])[|log|] == e
  {
  }

  /** A system about to acknowledge, or acknowledging again, the batch it captured. */
  lemma {:induction false} AckStep(s: System, ackOk: bool)
    requires Inv(s) && WasUploaded(s.log, s.adapter.batchId, s.adapter.ids)
    ensures var e := Called(AckCall(s.adapter.batchId, s.adapter.ids, ackOk));
            Inv(System(if ackOk then FRESH_ADAPTER else s.adapter.(awaiting := true), Idle, s.log + [e]))
  {
    var e := Called(AckCall(s.adapter.batchId, s.adapter.ids, ackOk));
    Extended(s.log, e);
    LogExtends(s.log, e);
    UploadedStays(s.log, e, s.adapter.batchId, s.adapter.ids);
  }

  lemma {:induction false} PrepareStep(s: System, count: nat)
    requires Inv(s) && !s.adapter.awaiting && s.uploader.Idle?
    ensures Inv(s.(log := s.log + [Called(PrepareCall(count))]))
  {
    Extended(s.log, Called(PrepareCall(count)));
    LogExtends(s.log, Called(PrepareCall(count)));
  }

  lemma {:induction false} HandOutStep(s: System, b: string, ids: seq<nat>)
    requires Inv(s) && !s.adapter.awaiting && s.uploader.Idle? && ids != []
    ensures Inv(System(Adapter(b, ids, false), Uploading(b, ids), s.log + [HandedOut(b, ids)]))
  {
    Extended(s.log, HandedOut(b, ids));
    LogExtends(s.log, HandedOut(b, ids));
  }

  lemma {:induction false} NeutralStep(s: System, e: Event)
    requires Inv(s) && Lawful(s.log, e) && (e.RetryKey? || (e.Called? && (e.call.GenerateCall? || e.call.MarkCall?)))
    ensures Inv(s.(log := s.log + [e]))
  {
    Extended(s.log, e);
    LogExtends(s.log, e);
    match s.uploader
    case Idle =>
      if s.adapter.awaiting {
        UploadedStays(s.log, e, s.adapter.batchId, s.adapter.ids);
      }
    case Uploading(b, ids) =>
      var q :| 0 <= q < |s.log| && s.log[q] == HandedOut(b, ids);
      assert (s.log + [e])[q] == HandedOut(b, ids);
    case Uploaded(b, ids) => UploadedStays(s.log, e, b, ids);
  }

  // ---------- every step keeps the invariant ----------

  lemma {:induction false} AppendOne(log: seq<Event>, c: Call)
    ensures Append(log, [c]) == log + [Called(c)]
  {
  }

  lemma {:induction false} AppendTwo(log: seq<Event>, c: Call, d: Call)
    ensures Append(log, [c] + [d]) == log + [Called(c)] + [Called(d)]
  {
    assert ([c] + [d])[..1] == [c];
    AppendOne(log, c);
  }

  /** The system after the outstanding acknowledgement, if any, was settled or not. */
  function Settled(s: System, ackOk: bool): System {
    if !s.adapter.awaiting then s
    else System(if ackOk then FRESH_ADAPTER else s.adapter, Idle, s.log + [Called(AckCall(s.adapter.batchId, s.adapter.ids, ackOk))])
  }

  /** GetOrGenPreKeys, step by step. */
  lemma {:induction false} GetUnfolds(s: System, count: nat, ackOk: bool, prepared: Prepared)
    requires s.uploader.Idle? && 0 < count <= MAX_BATCH
    ensures var s1 := Settled(s, ackOk);
            var s2 := s1.(log := s1.log + [Called(PrepareCall(count))]);
            Next(s, Get(count, ackOk, prepared)) ==
            if s1.adapter.awaiting then s1
            else if !UsableBatch(prepared) then s2
            else System(Adapter(prepared.batchId, prepared.ids, false), Uploading(prepared.batchId, prepared.ids),
                        s2.log + [HandedOut(prepared.batchId, prepared.ids)])
  {
    var ack := AckCall(s.adapter.batchId, s.adapter.ids, ackOk);
    AppendOne(s.log, ack);
    AppendTwo(s.log, ack, PrepareCall(count));
    AppendOne(s.log, PrepareCall(count));
    assert [] + [PrepareCall(count)] == [PrepareCall(count)];
  }

  lemma {:induction false} GetKeepsInv(s: System, count: nat, ackOk: bool, prepared: Prepared)
    requires Inv(s)
    ensures Inv(Next(s, Get(count, ackOk, prepared)))
  {
    if s.uploader.Idle? && 0 < count <= MAX_BATCH {
      GetUnfolds(s, count, ackOk, prepared);
      if s.adapter.awaiting {
        AckStep(s, ackOk);
      }
      var s1 := Settled(s, ackOk);
      assert Inv(s1);
      if !s1.adapter.awaiting {
        PrepareStep(s1, count);
        if UsableBatch(prepared) {
          HandOutStep(s1.(log := s1.log + [Called(PrepareCall(count))]), prepared.batchId, prepared.ids);
        }
      }
    }
  }

  lemma {:induction false} IqKeepsInv(s: System, ok: bool)
    requires Inv(s)
    ensures Inv(Next(s, Iq(ok)))
  {
    if s.uploader.Uploading? && ok {
      var b, ids := s.uploader.batchId, s.uploader.ids;
      var e := IqSucceeded(b, ids);
      Extended(s.log, e);
      LogExtends(s.log, e);
      var q :| 0 <= q < |s.log| && s.log[q] == HandedOut(b, ids);
      assert (s.log + [e])[q] == HandedOut(b, ids);
      assert WasUploaded(s.log + [e], b, ids);
    }
  }

  lemma {:induction false} MarkKeepsInv(s: System, ackOk: bool)
    requires Inv(s)
    ensures Inv(Next(s, Mark(ackOk)))
  {
    if s.uploader.Uploaded? {
      AckStep(s, ackOk);
      AppendOne(s.log, AckCall(s.adapter.batchId, s.adapter.ids, ackOk));
    }
  }

  lemma {:induction false} GenUnfolds(s: System, generated: Prepared, markOk: bool)
    ensures var s1 := s.(log := s.log + [Called(GenerateCall)]);
            Next(s, GenOne(generated, markOk)) ==
            if !generated.Batch? || |generated.ids| != 1 || generated.ids[0] in s.adapter.ids then s1
            else
              var s2 := s1.(log := s1.log + [Called(MarkCall(generated.ids))]);
              if markOk then s2.(log := s2.log + [RetryKey(generated.ids[0])]) else s2
  {
    AppendOne(s.log, GenerateCall);
    if generated.Batch? {
      AppendTwo(s.log, GenerateCall, MarkCall(generated.ids));
      assert [GenerateCall, MarkCall(generated.ids)] == [GenerateCall] + [MarkCall(generated.ids)];
    }
  }

  lemma {:induction false} GenKeepsInv(s: System, generated: Prepared, markOk: bool)
    requires Inv(s)
    ensures Inv(Next(s, GenOne(generated, markOk)))
  {
    GenUnfolds(s, generated, markOk);
    NeutralStep(s, Called(GenerateCall));
    if generated.Batch? && |generated.ids| == 1 && generated.ids[0] !in s.adapter.ids {
      var s1 := s.(log := s.log + [Called(GenerateCall)]);
      NeutralStep(s1, Called(MarkCall(generated.ids)));
      if markOk {
        NeutralStep(s1.(log := s1.log + [Called(MarkCall(generated.ids))]), RetryKey(generated.ids[0]));
      }
    }
  }

  lemma {:induction false} RestartKeepsInv(s: System)
    requires Inv(s)
    ensures Inv(Next(s, Restart))
  {
    Extended(s.log, Restarted);
    LogExtends(s.log, Restarted);
  }

  lemma {:induction false} NextKeepsInv(s: System, a: Action)
    requires Inv(s)
    ensures Inv(Next(s, a))
  {
    match a
    case Get(count, ackOk, prepared) => GetKeepsInv(s, count, ackOk, prepared);
    case Iq(ok) => IqKeepsInv(s, ok);
    case Mark(ackOk) => MarkKeepsInv(s, ackOk);
    case GenOne(generated, markOk) => GenKeepsInv(s, generated, markOk);
    case Restart => RestartKeepsInv(s);
  }

  lemma {:induction false} RunKeepsInv(actions: seq<Action>)
    ensures Inv(Run(START, actions))
  {
    if actions != [] {
      RunKeepsInv(actions[..|actions| - 1]);
      NextKeepsInv(Run(START, actions[..|actions| - 1]), actions[|actions| - 1]);
    }
  }

  // ---------- what that means over whole runs ----------

  /**
   In every run, whatever the remote answers: an acknowledged list was handed out complete and in order and its
   upload succeeded before the acknowledgement; a retry key is never one of the pending list.
   */
  lemma {:induction false} AcknowledgedWasUploaded(actions: seq<Action>, p: nat)
    requires p < |Run(START, actions).log|
    ensures var log := Run(START, actions).log;
            match log[p]
            case Called(AckCall(b, ids, _)) => WasUploaded(log[..p], b, ids)
            case Called(MarkCall(ids)) => forall id :: id in ids ==> id !in Pending(log[..p]).ids
            case RetryKey(id) => id !in Pending(log[..p]).ids
            case _ => true
  {
    RunKeepsInv(actions);
    assert Lawful(Run(START, actions).log[..p], Run(START, actions).log[p]);
  }

  lemma {:induction false} StillOutstanding(log: seq<Event>, p: nat, n: nat, b: string, ids: seq<nat>)
    requires LawfulLog(log) && p < n <= |log| && log[p] == Called(AckCall(b, ids, false))
    requires forall k :: p < k < n ==> log[k] != Restarted && log[k] != Called(AckCall(b, ids, true))
    ensures Outstanding(log[..n]) == Some(Captured(b, ids))
  {
    assert log[..n][..n - 1] == log[..n - 1] && log[..n][n - 1] == log[n - 1];
    if n - 1 > p {
      StillOutstanding(log, p, n - 1, b, ids);
      assert Lawful(log[..n - 1], log[n - 1]);
    }
  }

  /** Once an acknowledgement failed, no batch is prepared in that lifetime until that same one succeeded. */
  lemma {:induction false} NoPrepareBeforeAck(actions: seq<Action>, p: nat, r: nat)
    requires p < r < |Run(START, actions).log|
    requires var log := Run(START, actions).log;
             && log[p].Called? && log[p].call.AckCall? && !log[p].call.ok && log[r].Called? && log[r].call.PrepareCall?
             && forall k :: p < k < r ==> log[k] != Restarted
    ensures var log := Run(START, actions).log;
            exists q :: p < q < r && log[q] == Called(AckCall(log[p].call.batchId, log[p].call.ids, true))
  {
    RunKeepsInv(actions);
    var log := Run(START, actions).log;
    var c := log[p].call;
    assert Lawful(log[..r], log[r]);
    if forall q :: p < q < r ==> log[q] != Called(AckCall(c.batchId, c.ids, true)) {
      StillOutstanding(log, p, r, c.batchId, c.ids);
      assert false;
    }
  }
}
