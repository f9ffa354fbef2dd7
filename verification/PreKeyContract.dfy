/**
 The same protocol against a remote that keeps the contract documented on the RemoteSignal interface:
 a live pending batch is returned again in its original order, exact acknowledgements can be replayed, and
 requests or responses may be lost at any time.
 */
module PreKeyContract {
  import opened Prelude
  import opened RemotePreKeys
  import opened PreKeyProtocol

  datatype RemoteBatch = RemoteBatch(id: string, original: seq<nat>, live: set<nat>)

  /** `known` are the batches ever allocated, `exhausted` those whose keys were all consumed before a new allocation. */
  datatype Remote = Remote(pending: Option<RemoteBatch>, acked: set<Captured>, known: set<string>, exhausted: set<string>)

  datatype Fate = Delivered | RequestLost | ResponseLost

  datatype World = World(sys: System, remote: Remote)

  datatype Move =
    | GetMove(count: nat, ackFate: Fate, prepareFate: Fate, freshId: string, freshIds: seq<nat>)
    | MarkMove(fate: Fate)
    | LocalMove(action: Action)
    | Consume(id: nat)

  const BEGIN := World(START, Remote(None, {}, {}, {}))

  function Survivors(ids: seq<nat>, live: set<nat>): (r: seq<nat>)
    ensures forall id :: id in r <==> id in ids && id in live
    ensures |r| <= |ids|
  {
    if ids == [] then []
    else
      assert ids == ids[..|ids| - 1] + [ids[|ids| - 1]];
      Survivors(ids[..|ids| - 1], live) + (if ids[|ids| - 1] in live then [ids[|ids| - 1]] else [])
  }

  predicate Allocatable(r: Remote, id: string, ids: seq<nat>) {
    id !in r.known && UsableBatch(Batch(id, ids))
  }

  /** PreparePreKeyUpload: the live pending batch, or a new allocation. */
  function PrepareAt(r: Remote, freshId: string, freshIds: seq<nat>): (Remote, Prepared) {
    if r.pending.Some? && Survivors(r.pending.value.original, r.pending.value.live) != [] then
      (r, Batch(r.pending.value.id, Survivors(r.pending.value.original, r.pending.value.live)))
    else if Allocatable(r, freshId, freshIds) then
      (Remote(Some(RemoteBatch(freshId, freshIds, set k | k in freshIds)), r.acked, r.known + {freshId},
              r.exhausted + (if r.pending.Some? then {r.pending.value.id} else {})),
       Batch(freshId, freshIds))
    else (r, NoBatch)
  }

  predicate Acknowledges(b: RemoteBatch, c: Captured) {
    b.id == c.batchId && (forall id :: id in b.live ==> id in c.ids) && forall id :: id in c.ids ==> id in b.original
  }

  /** AcknowledgePreKeyUpload: atomic for all surviving keys, and replayable. */
  function AckAt(r: Remote, c: Captured): (Remote, bool) {
    if c in r.acked then (r, true)
    else if r.pending.Some? && Acknowledges(r.pending.value, c) then (r.(pending := None, acked := r.acked + {c}), true)
    else (r, false)
  }

  function CapturedOf(a: Adapter): Captured { Captured(a.batchId, a.ids) }

  /** What the remote does with a request that reached it, and what the adapter sees. */
  function AckFated(r: Remote, c: Captured, fate: Fate): (Remote, bool) {
    if fate == RequestLost then (r, false) else (AckAt(r, c).0, AckAt(r, c).1 && fate == Delivered)
  }

  function PrepareFated(r: Remote, fate: Fate, id: string, ids: seq<nat>): (Remote, Prepared) {
    if fate == RequestLost then (r, NoBatch)
    else (PrepareAt(r, id, ids).0, if fate == Delivered then PrepareAt(r, id, ids).1 else NoBatch)
  }

  function Step(w: World, m: Move): World {
    match m
    case GetMove(count, ackFate, prepareFate, freshId, freshIds) =>
      if !w.sys.uploader.Idle? || count == 0 || count > MAX_BATCH then w
      else
        var (r1, acked) := if w.sys.adapter.awaiting then AckFated(w.remote, CapturedOf(w.sys.adapter), ackFate) else (w.remote, true);
        if !acked then World(Next(w.sys, Get(count, false, NoBatch)), r1)
        else
          var (r2, prepared) := PrepareFated(r1, prepareFate, freshId, freshIds);
          World(Next(w.sys, Get(count, true, prepared)), r2)
    case MarkMove(fate) =>
      if !w.sys.uploader.Uploaded? then w
      else
        var (r, acked) := AckFated(w.remote, CapturedOf(w.sys.adapter), fate);
        World(Next(w.sys, Mark(acked)), r)
    case LocalMove(action) => if action.Get? || action.Mark? then w else w.(sys := Next(w.sys, action))
    case Consume(id) =>
      if w.remote.pending.None? then w
      else w.(remote := w.remote.(pending := Some(w.remote.pending.value.(live := w.remote.pending.value.live - {id}))))
  }

  function Reach(moves: seq<Move>): World {
    if moves == [] then BEGIN else Step(Reach(moves[..|moves| - 1]), moves[|moves| - 1])
  }

  // ---------- the invariant ----------

  ghost predicate AckedId(r: Remote, id: string) { exists c :: c in r.acked && c.batchId == id }

  /** Every batch ever allocated is acknowledged, pending or used up; and only one of these. */
  ghost predicate Accounted(r: Remote) {
    && (forall id :: id in r.known <==> (AckedId(r, id) || (r.pending.Some? && r.pending.value.id == id) || id in r.exhausted))
    && (r.pending.Some? ==>
          && !AckedId(r, r.pending.value.id) && r.pending.value.id !in r.exhausted
          && UsableBatch(Batch(r.pending.value.id, r.pending.value.original))
          && forall k :: k in r.pending.value.live ==> k in r.pending.value.original)
  }

  /** The remote will accept an acknowledgement of this list. */
  ghost predicate WillAccept(r: Remote, c: Captured) {
    c in r.acked || (r.pending.Some? && Acknowledges(r.pending.value, c))
  }

  ghost predicate Sound(w: World) {
    && Inv(w.sys)
    && Accounted(w.remote)
    && AllUploaded(w.sys.log, w.remote.acked)
    && (w.sys.adapter.awaiting || !w.sys.uploader.Idle? ==> WillAccept(w.remote, CapturedOf(w.sys.adapter)))
  }

  // ---------- the remote's operations ----------

  /** An acknowledgement keeps the books, never touches another batch, and a replay changes nothing at all. */
  lemma {:induction false} AckKeepsBooks(r: Remote, c: Captured)
    requires Accounted(r)
    ensures var r' := AckAt(r, c).0;
            && Accounted(r') && r'.known == r.known
            && (c in r.acked ==> r' == r)
            && (r.pending.Some? && r.pending.value.id != c.batchId ==> r'.pending == r.pending)
            && (forall d :: d in r'.acked ==> d in r.acked || d == c)
            && (WillAccept(r, c) ==> AckAt(r, c).1 && c in r'.acked)
  {
  }

  lemma {:induction false} SurvivorsDistinct(ids: seq<nat>, live: set<nat>)
    requires Distinct(ids)
    ensures Distinct(Survivors(ids, live))
  {
    if ids != [] {
      var front := Survivors(ids[..|ids| - 1], live);
      SurvivorsDistinct(ids[..|ids| - 1], live);
      forall i | 0 <= i < |front| ensures front[i] != ids[|ids| - 1] {
        assert front[i] in ids[..|ids| - 1];
      }
    }
  }

  /** Preparing keeps the books; the returned batch is pending and its acknowledgement will be accepted. */
  lemma {:induction false} PrepareKeepsBooks(r: Remote, id: string, ids: seq<nat>)
    requires Accounted(r)
    ensures var (r', p) := PrepareAt(r, id, ids);
            && Accounted(r') && r'.acked == r.acked && r.known <= r'.known
            && (p.Batch? ==> UsableBatch(p) && WillAccept(r', Captured(p.batchId, p.ids)))
  {
    var r', p := PrepareAt(r, id, ids).0, PrepareAt(r, id, ids).1;
    if r.pending.Some? && Survivors(r.pending.value.original, r.pending.value.live) != [] {
      var b := r.pending.value;
      SurvivorsDistinct(b.original, b.live);
    } else if Allocatable(r, id, ids) {
      forall k ensures AckedId(r', k) <==> AckedId(r, k) {
      }
    }
  }

  // ---------- every move keeps the invariant ----------

  lemma {:induction false} FatedAckKeepsBooks(r: Remote, c: Captured, fate: Fate)
    requires Accounted(r) && WillAccept(r, c)
    ensures var (r', ok) := AckFated(r, c, fate);
            && Accounted(r') && WillAccept(r', c) && (forall d :: d in r'.acked ==> d in r.acked || d == c)
            && (ok <==> fate == Delivered)
  {
  }

  lemma {:induction false} UploadedPersists(s: System, a: Action, b: string, ids: seq<nat>)
    requires WasUploaded(s.log, b, ids)
    ensures WasUploaded(Next(s, a).log, b, ids)
  {
    LogGrows(s, a);
    var log := Next(s, a).log;
    var q, r :| 0 <= q < r < |s.log| && s.log[q] == HandedOut(b, ids) && s.log[r] == IqSucceeded(b, ids);
    assert log[q] == s.log[q] && log[r] == s.log[r];
  }

  lemma {:induction false} LogGrows(s: System, a: Action)
    ensures s.log <= Next(s, a).log
  {
    match a
    case Get(count, ackOk, prepared) => AppendGrows(s.log, GetSpec(s.adapter, count, ackOk, prepared).calls);
    case Iq(_) =>
    case Mark(ackOk) =>
      if s.uploader.Uploaded? && s.uploader.ids != [] {
        AppendGrows(s.log, MarkSpec(s.adapter, s.uploader.ids[|s.uploader.ids| - 1], ackOk).calls);
      }
    case GenOne(generated, markOk) => AppendGrows(s.log, GenSpec(s.adapter, generated, markOk).calls);
    case Restart =>
  }

  lemma {:induction false} AppendGrows(log: seq<Event>, calls: seq<Call>)
    ensures log <= Append(log, calls)
  {
    if calls != [] {
      AppendGrows(log, calls[..|calls| - 1]);
    }
  }

  /** The remote and the answer after the outstanding acknowledgement, if any, was sent again. */
  function Resent(w: World, fate: Fate): (Remote, bool) {
    if w.sys.adapter.awaiting then AckFated(w.remote, CapturedOf(w.sys.adapter), fate) else (w.remote, true)
  }

  ghost predicate AllUploaded(log: seq<Event>, acked: set<Captured>) {
    forall c :: c in acked ==> WasUploaded(log, c.batchId, c.ids)
  }

  lemma {:induction false} ResentKeepsBooks(w: World, fate: Fate)
    requires Sound(w)
    ensures var (r, ok) := Resent(w, fate);
            && Accounted(r) && AllUploaded(w.sys.log, r.acked)
            && (!ok ==> w.sys.adapter.awaiting && WillAccept(r, CapturedOf(w.sys.adapter)))
  {
  }

  lemma {:induction false} AllUploadedPersists(s: System, a: Action, acked: set<Captured>)
    requires AllUploaded(s.log, acked)
    ensures AllUploaded(Next(s, a).log, acked)
  {
    forall d | d in acked ensures WasUploaded(Next(s, a).log, d.batchId, d.ids) {
      UploadedPersists(s, a, d.batchId, d.ids);
    }
  }

  /** After GetOrGenPreKeys the uploader holds the prepared batch, or the adapter still waits, or nothing is in progress. */
  lemma {:induction false} GetOutcome(s: System, count: nat, ackOk: bool, prepared: Prepared)
    requires s.uploader.Idle? && 0 < count <= MAX_BATCH
    ensures var t := Next(s, Get(count, ackOk, prepared));
            && (t.adapter.awaiting <==> s.adapter.awaiting && !ackOk)
            && (t.adapter.awaiting ==> t.adapter == s.adapter && t.uploader.Idle?)
            && (!t.uploader.Idle? ==> prepared.Batch? && CapturedOf(t.adapter) == Captured(prepared.batchId, prepared.ids))
  {
  }

  lemma {:induction false} GetMoveKeepsSound(w: World, m: Move)
    requires Sound(w) && m.GetMove?
    ensures Sound(Step(w, m))
  {
    var s := w.sys;
    if s.uploader.Idle? && 0 < m.count <= MAX_BATCH {
      var r1, acked := Resent(w, m.ackFate).0, Resent(w, m.ackFate).1;
      ResentKeepsBooks(w, m.ackFate);
      PrepareKeepsBooks(r1, m.freshId, m.freshIds);
      var after := if acked then PrepareFated(r1, m.prepareFate, m.freshId, m.freshIds) else (r1, NoBatch);
      var a := Get(m.count, acked, after.1);
      assert Step(w, m) == World(Next(s, a), after.0);
      NextKeepsInv(s, a);
      GetOutcome(s, m.count, acked, after.1);
      AllUploadedPersists(s, a, after.0.acked);
    }
  }

  lemma {:induction false} MarkMoveKeepsSound(w: World, m: Move)
    requires Sound(w) && m.MarkMove?
    ensures Sound(Step(w, m))
  {
    var s, c := w.sys, CapturedOf(w.sys.adapter);
    if s.uploader.Uploaded? {
      FatedAckKeepsBooks(w.remote, c, m.fate);
      var (r, acked) := AckFated(w.remote, c, m.fate);
      var a := Mark(acked);
      NextKeepsInv(s, a);
      AllUploadedPersists(s, a, r.acked);
    }
  }

  lemma {:induction false} LocalMoveKeepsSound(w: World, m: Move)
    requires Sound(w) && m.LocalMove?
    ensures Sound(Step(w, m))
  {
    var s, a := w.sys, m.action;
    if !a.Get? && !a.Mark? {
      NextKeepsInv(s, a);
      AllUploadedPersists(s, a, w.remote.acked);
    }
  }

  lemma {:induction false} ConsumeKeepsSound(w: World, m: Move)
    requires Sound(w) && m.Consume?
    ensures Sound(Step(w, m))
  {
  }

  lemma {:induction false} BeginIsSound()
    ensures Sound(BEGIN)
  {
  }

  lemma {:induction false} ReachKeepsSound(moves: seq<Move>)
    ensures Sound(Reach(moves))
  {
    if moves == [] {
      BeginIsSound();
    } else {
      var w, m := Reach(moves[..|moves| - 1]), moves[|moves| - 1];
      ReachKeepsSound(moves[..|moves| - 1]);
      match m
      case GetMove(_, _, _, _, _) => GetMoveKeepsSound(w, m);
      case MarkMove(_) => MarkMoveKeepsSound(w, m);
      case LocalMove(_) => LocalMoveKeepsSound(w, m);
      case Consume(_) => ConsumeKeepsSound(w, m);
    }
  }

  // ---------- what the contract buys ----------

  /**
   Over every run with lost messages, restarts and consumed keys: whatever the remote has acknowledged was uploaded;
   every batch it ever allocated is acknowledged, still pending, or used up; and whatever acknowledgement the adapter
   is about to send is accepted unless the request itself is lost.
   */
  lemma {:induction false} NothingDroppedOrMisacknowledged(moves: seq<Move>)
    ensures var w := Reach(moves);
            && (forall c :: c in w.remote.acked ==> WasUploaded(w.sys.log, c.batchId, c.ids))
            && (forall id :: id in w.remote.known ==>
                  AckedId(w.remote, id) || (w.remote.pending.Some? && w.remote.pending.value.id == id) || id in w.remote.exhausted)
            && (w.sys.adapter.awaiting || w.sys.uploader.Uploaded? ==> AckAt(w.remote, CapturedOf(w.sys.adapter)).1)
  {
    ReachKeepsSound(moves);
  }

  /** A replayed acknowledgement changes nothing, in particular not the batch prepared since. */
  lemma {:induction false} ReplayIsHarmless(moves: seq<Move>, c: Captured)
    requires c in Reach(moves).remote.acked
    ensures AckAt(Reach(moves).remote, c) == (Reach(moves).remote, true)
    ensures Reach(moves).remote.pending.Some? ==> Reach(moves).remote.pending.value.id != c.batchId
  {
    ReachKeepsSound(moves);
    assert AckedId(Reach(moves).remote, c.batchId);
  }
}
