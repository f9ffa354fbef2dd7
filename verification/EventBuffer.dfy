/**
 The decrypted-event buffer of message.go: a row per ciphertext hash, written in the same transaction as the ratchet
 decryption, whose plaintext is cleared once the handlers have accepted the message.
 */
module EventBuffer {
  import opened Prelude

  type Hash = Bytes

  /** whatsmeow_event_buffer: the plaintext is NULL once cleared. */
  type Rows = map<Hash, Option<Bytes>>

  /** Where one delivery stands: between the lookup and the transaction, with a plaintext, or accepted by the handlers. */
  datatype Phase = Missed(hash: Hash) | Have(hash: Hash, plaintext: Bytes) | Accepted(hash: Hash)

  datatype Event =
    | Committed(hash: Hash, plaintext: Bytes)
    | Handled(hash: Hash, plaintext: Bytes)
    | Cleared(hash: Hash)
    | Evicted(hash: Hash)

  datatype State = State(rows: Rows, workers: map<nat, Phase>, log: seq<Event>)

  const INITIAL := State(map[], map[], [])

  /**
   What becomes of a plaintext: it cannot be unpadded or unmarshalled, it is passed over without a handler (an unknown
   version), a handler fails, or the handlers take it.
   */
  datatype Verdict = Unusable | PassedOver | Rejected | Taken

  datatype Action =
    | Lookup(worker: nat, hash: Hash)                                     // a delivery starts
    | Transact(worker: nat, decrypted: Option<Bytes>, commitOk: bool)     // decrypt and insert, or roll both back
    | Dispatch(worker: nat, verdict: Verdict)                             // unpad, unmarshal, run the handlers
    | Clear(worker: nat, ok: bool)
    | Evict(hash: Hash)                                                   // DeleteOldBufferedHashes
    | Crash

  function Done(s: State, w: nat): State { s.(workers := s.workers - {w}) }

  /** Some delivery of h is in progress. */
  predicate Busy(s: State, h: Hash) { exists v :: v in s.workers && s.workers[v].hash == h }

  /** `exclusive` allows a delivery to start only when no other of the same hash is in progress. */
  function Next(s: State, a: Action, exclusive: bool): State {
    match a
    case Lookup(w, h) =>
      if w in s.workers || (exclusive && Busy(s, h)) then s
      else if h !in s.rows then s.(workers := s.workers[w := Missed(h)])
      else if s.rows[h].None? then s
      else s.(workers := s.workers[w := Have(h, s.rows[h].value)])
    case Transact(w, decrypted, commitOk) =>
      if !(w in s.workers && s.workers[w].Missed?) then s
      else
        var h := s.workers[w].hash;
        if decrypted.None? || h in s.rows || !commitOk then Done(s, w)
        else State(s.rows[h := decrypted], s.workers[w := Have(h, decrypted.value)], s.log + [Committed(h, decrypted.value)])
    case Dispatch(w, verdict) =>
      if !(w in s.workers && s.workers[w].Have?) then s
      else
        var h, p := s.workers[w].hash, s.workers[w].plaintext;
        var log := if verdict.Rejected? || verdict.Taken? then s.log + [Handled(h, p)] else s.log;
        if verdict.Unusable? || verdict.Rejected? then Done(s, w).(log := log)
        else State(s.rows, s.workers[w := Accepted(h)], log)
    case Clear(w, ok) =>
      if !(w in s.workers && s.workers[w].Accepted?) then s
      else
        var h := s.workers[w].hash;
        if !ok || h !in s.rows then Done(s, w)
        else State(s.rows[h := None], s.workers - {w}, s.log + [Cleared(h)])
    case Evict(h) => if h in s.rows then s.(rows := s.rows - {h}, log := s.log + [Evicted(h)]) else s
    case Crash => s.(workers := map[])
  }

  function Run(actions: seq<Action>, exclusive: bool): State {
    if actions == [] then INITIAL else Next(Run(actions[..|actions| - 1], exclusive), actions[|actions| - 1], exclusive)
  }

  // ---------- what a log says about a hash ----------

  datatype Status = Unknown | Buffered(plaintext: Bytes) | Processed

  function StatusOf(log: seq<Event>, h: Hash): Status {
    if log == [] then Unknown
    else
      var e := log[|log| - 1];
      if e.hash != h || e.Handled? then StatusOf(log[..|log| - 1], h)
      else if e.Committed? then Buffered(e.plaintext)
      else if e.Cleared? then Processed
      else Unknown
  }

  function RowStatus(rows: Rows, h: Hash): Status {
    if h !in rows then Unknown else if rows[h].Some? then Buffered(rows[h].value) else Processed
  }

  ghost predicate HasCommit(log: seq<Event>, h: Hash, p: Bytes) {
    exists q :: 0 <= q < |log| && log[q] == Committed(h, p)
  }

  /** The rule each event obeys: commits only for unknown hashes; handlers see committed plaintext, never a processed hash. */
  ghost predicate Lawful(before: seq<Event>, e: Event, exclusive: bool) {
    match e
    case Committed(h, _) => StatusOf(before, h).Unknown?
    case Handled(h, p) => HasCommit(before, h, p) && (exclusive ==> StatusOf(before, h) == Buffered(p) || StatusOf(before, h).Unknown?)
    case _ => true
  }

  ghost predicate LawfulLog(log: seq<Event>, exclusive: bool) {
    forall p :: 0 <= p < |log| ==> Lawful(log[..p], log[p], exclusive)
  }

  /** A delivery holds a committed plaintext; if deliveries are exclusive its hash was not cleared meanwhile. */
  ghost predicate PhaseOk(s: State, w: nat, exclusive: bool)
    requires w in s.workers
  {
    match s.workers[w]
    case Missed(_) => true
    case Have(h, p) => HasCommit(s.log, h, p) && (exclusive ==> StatusOf(s.log, h) == Buffered(p) || StatusOf(s.log, h).Unknown?)
    case Accepted(h) => true
  }

  ghost predicate Inv(s: State, exclusive: bool) {
    && LawfulLog(s.log, exclusive)
    && (forall h :: RowStatus(s.rows, h) == StatusOf(s.log, h))
    && (forall w :: w in s.workers ==> PhaseOk(s, w, exclusive))
    && (exclusive ==> forall v, w :: v in s.workers && w in s.workers && s.workers[v].hash == s.workers[w].hash ==> v == w)
  }

  // ---------- extending a log ----------

  lemma {:induction false} Extend(log: seq<Event>, e: Event, exclusive: bool)
    requires LawfulLog(log, exclusive) && Lawful(log, e, exclusive)
    ensures LawfulLog(log + [e], exclusive)
    ensures (log + [e])[..|log|] == log
  {
    forall p | 0 <= p < |log + [e]| ensures Lawful((log + [e])[..p], (log + [e])[p], exclusive) {
      assert (log + [e])[..p] == if p < |log| then log[..p] else log;
    }
  }

  lemma {:induction false} CommitStays(log: seq<Event>, e: Event, h: Hash, p: Bytes)
    requires HasCommit(log, h, p)
    ensures HasCommit(log + [e], h, p)
  {
    var q :| 0 <= q < |log| && log[q] == Committed(h, p);
    assert (log + [e])[q] == Committed(h, p);
  }

  lemma {:induction false} StatusAfter(log: seq<Event>, e: Event, h: Hash)
    ensures StatusOf(log + [e], h) ==
            if e.hash != h || e.Handled? then StatusOf(log, h)
            else if e.Committed? then Buffered(e.plaintext) else if e.Cleared? then Processed else Unknown
  {
  }

  lemma {:induction false} BufferedWasCommitted(log: seq<Event>, h: Hash)
    requires StatusOf(log, h).Buffered?
    ensures HasCommit(log, h, StatusOf(log, h).plaintext)
  {
    var front, e := log[..|log| - 1], log[|log| - 1];
    assert log == front + [e];
    if e.hash != h || e.Handled? {
      BufferedWasCommitted(front, h);
      CommitStays(front, e, h, StatusOf(log, h).plaintext);
    } else {
      assert log[|log| - 1] == Committed(h, e.plaintext);
    }
  }

  // ---------- every step keeps the invariant ----------

  lemma {:induction false} LookupKeepsInv(s: State, w: nat, h: Hash, exclusive: bool)
    requires Inv(s, exclusive)
    ensures Inv(Next(s, Lookup(w, h), exclusive), exclusive)
  {
    assert RowStatus(s.rows, h) == StatusOf(s.log, h);
    if h in s.rows && s.rows[h].Some? {
      BufferedWasCommitted(s.log, h);
    }
    var t := Next(s, Lookup(w, h), exclusive);
    forall v | v in t.workers ensures PhaseOk(t, v, exclusive) {
      if v in s.workers {
        assert PhaseOk(s, v, exclusive);
      }
    }
  }

  /** An event for a hash no other delivery depends on. */
  lemma {:induction false} OthersKeepPhase(s: State, t: State, v: nat, e: Event, exclusive: bool)
    requires Inv(s, exclusive) && v in s.workers && v in t.workers && t.workers[v] == s.workers[v] && t.log == s.log + [e]
    requires e.Handled? || e.Evicted? || !exclusive || e.hash != s.workers[v].hash
    ensures PhaseOk(t, v, exclusive)
  {
    assert PhaseOk(s, v, exclusive);
    if s.workers[v].Have? {
      CommitStays(s.log, e, s.workers[v].hash, s.workers[v].plaintext);
      StatusAfter(s.log, e, s.workers[v].hash);
    }
  }

  lemma {:induction false} StatusesFollow(s: State, rows: Rows, e: Event)
    requires forall h :: RowStatus(s.rows, h) == StatusOf(s.log, h)
    requires forall h :: h != e.hash ==> RowStatus(rows, h) == RowStatus(s.rows, h)
    requires RowStatus(rows, e.hash) == if e.Handled? then RowStatus(s.rows, e.hash)
                                        else if e.Committed? then Buffered(e.plaintext) else if e.Cleared? then Processed else Unknown
    ensures forall h :: RowStatus(rows, h) == StatusOf(s.log + [e], h)
  {
  }

  lemma {:induction false} TransactKeepsInv(s: State, w: nat, decrypted: Option<Bytes>, commitOk: bool, exclusive: bool)
    requires Inv(s, exclusive)
    ensures Inv(Next(s, Transact(w, decrypted, commitOk), exclusive), exclusive)
  {
    var t := Next(s, Transact(w, decrypted, commitOk), exclusive);
    if t.log == s.log {
      forall v | v in t.workers ensures PhaseOk(t, v, exclusive) {
        assert PhaseOk(s, v, exclusive);
      }
    } else {
      var h, p := s.workers[w].hash, decrypted.value;
      var e := Committed(h, p);
      assert RowStatus(s.rows, h) == StatusOf(s.log, h);
      Extend(s.log, e, exclusive);
      StatusesFollow(s, t.rows, e);
      StatusAfter(s.log, e, h);
      assert t.log[|s.log|] == e;
      forall v | v in t.workers ensures PhaseOk(t, v, exclusive) {
        if v != w {
          OthersKeepPhase(s, t, v, e, exclusive);
        }
      }
    }
  }

  lemma {:induction false} DispatchKeepsInv(s: State, w: nat, verdict: Verdict, exclusive: bool)
    requires Inv(s, exclusive)
    ensures Inv(Next(s, Dispatch(w, verdict), exclusive), exclusive)
  {
    var t := Next(s, Dispatch(w, verdict), exclusive);
    if !(w in s.workers && s.workers[w].Have?) || verdict.Unusable? || verdict.PassedOver? {
      forall v | v in t.workers ensures PhaseOk(t, v, exclusive) {
        assert v in s.workers && PhaseOk(s, v, exclusive);
      }
    } else {
      var e := Handled(s.workers[w].hash, s.workers[w].plaintext);
      assert PhaseOk(s, w, exclusive);
      Extend(s.log, e, exclusive);
      StatusesFollow(s, t.rows, e);
      forall v | v in t.workers ensures PhaseOk(t, v, exclusive) {
        if v != w {
          OthersKeepPhase(s, t, v, e, exclusive);
        }
      }
    }
  }

  lemma {:induction false} ClearKeepsInv(s: State, w: nat, ok: bool, exclusive: bool)
    requires Inv(s, exclusive)
    ensures Inv(Next(s, Clear(w, ok), exclusive), exclusive)
  {
    var t := Next(s, Clear(w, ok), exclusive);
    if t.log == s.log {
      forall v | v in t.workers ensures PhaseOk(t, v, exclusive) {
        assert PhaseOk(s, v, exclusive);
      }
    } else {
      var e := Cleared(s.workers[w].hash);
      Extend(s.log, e, exclusive);
      StatusesFollow(s, t.rows, e);
      forall v | v in t.workers ensures PhaseOk(t, v, exclusive) {
        OthersKeepPhase(s, t, v, e, exclusive);
      }
    }
  }

  lemma {:induction false} EvictKeepsInv(s: State, h: Hash, exclusive: bool)
    requires Inv(s, exclusive)
    ensures Inv(Next(s, Evict(h), exclusive), exclusive)
  {
    if h in s.rows {
      var e, t := Evicted(h), Next(s, Evict(h), exclusive);
      Extend(s.log, e, exclusive);
      StatusesFollow(s, t.rows, e);
      forall v | v in t.workers ensures PhaseOk(t, v, exclusive) {
        OthersKeepPhase(s, t, v, e, exclusive);
      }
    }
  }

  lemma {:induction false} RunKeepsInv(actions: seq<Action>, exclusive: bool)
    ensures Inv(Run(actions, exclusive), exclusive)
  {
    if actions != [] {
      var s, a := Run(actions[..|actions| - 1], exclusive), actions[|actions| - 1];
      RunKeepsInv(actions[..|actions| - 1], exclusive);
      match a
      case Lookup(w, h) => LookupKeepsInv(s, w, h, exclusive);
      case Transact(w, decrypted, commitOk) => TransactKeepsInv(s, w, decrypted, commitOk, exclusive);
      case Dispatch(w, verdict) => DispatchKeepsInv(s, w, verdict, exclusive);
      case Clear(w, ok) => ClearKeepsInv(s, w, ok, exclusive);
      case Evict(h) => EvictKeepsInv(s, h, exclusive);
      case Crash =>
    }
  }

  // ---------- whole runs ----------

  ghost predicate EvictedBetween(log: seq<Event>, p: int, r: int, h: Hash) {
    exists q :: p < q < r && 0 <= q < |log| && log[q] == Evicted(h)
  }

  lemma {:induction false} StaysKnown(log: seq<Event>, p: nat, n: nat, h: Hash, exclusive: bool)
    requires LawfulLog(log, exclusive) && p < n <= |log| && log[p].hash == h && (log[p].Committed? || log[p].Cleared?)
    requires !EvictedBetween(log, p, n, h)
    ensures !StatusOf(log[..n], h).Unknown?
    ensures log[p].Cleared? ==> StatusOf(log[..n], h).Processed?
  {
    var front, e := log[..n - 1], log[n - 1];
    assert log[..n] == front + [e];
    StatusAfter(front, e, h);
    if n - 1 > p {
      assert !EvictedBetween(log, p, n - 1, h);
      StaysKnown(log, p, n - 1, h, exclusive);
      assert Lawful(front, e, exclusive);
      assert e != Evicted(h);
    }
  }

  /** In every interleaving the ratchet commits once per ciphertext hash, unless the hash was evicted in between. */
  lemma {:induction false} RatchetCommitsOnce(actions: seq<Action>, exclusive: bool, p: nat, r: nat)
    requires p < r < |Run(actions, exclusive).log|
    requires var log := Run(actions, exclusive).log; log[p].Committed? && log[r].Committed? && log[p].hash == log[r].hash
    ensures var log := Run(actions, exclusive).log; EvictedBetween(log, p, r, log[p].hash)
  {
    RunKeepsInv(actions, exclusive);
    var log := Run(actions, exclusive).log;
    assert Lawful(log[..r], log[r], exclusive);
    if !EvictedBetween(log, p, r, log[p].hash) {
      StaysKnown(log, p, r, log[p].hash, exclusive);
      assert false;
    }
  }

  lemma {:induction false} RunSnoc(actions: seq<Action>, a: Action, exclusive: bool)
    ensures Run(actions + [a], exclusive) == Next(Run(actions, exclusive), a, exclusive)
  {
  }

  /** Some delivery in progress holds the plaintext of h. */
  ghost predicate Held(s: State, h: Hash) {
    exists v :: v in s.workers && s.workers[v].Have? && s.workers[v].hash == h
  }

  /** Between the two points of a run a handler sees h. */
  ghost predicate HandledSince(before: seq<Action>, after: seq<Action>, exclusive: bool, h: Hash) {
    var n, log := |Run(before, exclusive).log|, Run(before + after, exclusive).log;
    exists r :: n <= r < |log| && log[r].Handled? && log[r].hash == h
  }

  /** h is processed and no delivery in progress has its plaintext. */
  ghost predicate Settled(s: State, h: Hash) { h in s.rows && s.rows[h] == None && !Held(s, h) }

  lemma {:induction false} SettledStep(s: State, a: Action, exclusive: bool, h: Hash)
    requires Settled(s, h) && a != Evict(h)
    ensures Settled(Next(s, a, exclusive), h)
    ensures s.log <= Next(s, a, exclusive).log
    ensures forall r :: |s.log| <= r < |Next(s, a, exclusive).log| ==>
              !(Next(s, a, exclusive).log[r].Handled? && Next(s, a, exclusive).log[r].hash == h)
  {
    var t := Next(s, a, exclusive);
    forall v | v in t.workers ensures !(t.workers[v].Have? && t.workers[v].hash == h) {
      if v in s.workers {
        assert !(s.workers[v].Have? && s.workers[v].hash == h);
      }
    }
  }

  lemma {:induction false} SettledStays(before: seq<Action>, after: seq<Action>, exclusive: bool, h: Hash)
    requires Settled(Run(before, exclusive), h) && Evict(h) !in after
    ensures Settled(Run(before + after, exclusive), h) && !HandledSince(before, after, exclusive, h)
    ensures Run(before, exclusive).log <= Run(before + after, exclusive).log
  {
    if after == [] {
      assert before + after == before;
    } else {
      var front, a := after[..|after| - 1], after[|after| - 1];
      assert a in after;
      SettledStays(before, front, exclusive, h);
      assert before + after == (before + front) + [a];
      RunSnoc(before + front, a, exclusive);
      SettledStep(Run(before + front, exclusive), a, exclusive, h);
      var s, t := Run(before + front, exclusive), Run(before + after, exclusive);
      forall r | |Run(before, exclusive).log| <= r < |t.log| ensures !(t.log[r].Handled? && t.log[r].hash == h) {
        assert r < |s.log| ==> t.log[r] == s.log[r];
      }
    }
  }

  /**
   In every interleaving: once h is cleared, some continuation without an eviction of h brings it to a handler again
   exactly if another delivery held its plaintext at the clear.
   */
  lemma {:induction false} HandledAfterClearIff(before: seq<Action>, w: nat, exclusive: bool, h: Hash)
    requires var s := Run(before, exclusive); w in s.workers && s.workers[w] == Accepted(h) && h in s.rows
    ensures (exists after :: Evict(h) !in after && HandledSince(before + [Clear(w, true)], after, exclusive, h)) <==>
            Held(Run(before, exclusive), h)
  {
    var s, cleared := Run(before, exclusive), before + [Clear(w, true)];
    RunSnoc(before, Clear(w, true), exclusive);
    var t := Run(cleared, exclusive);
    assert t.rows[h] == None && t.workers == s.workers - {w};
    if Held(s, h) {
      var v :| v in s.workers && s.workers[v].Have? && s.workers[v].hash == h;
      var after := [Dispatch(v, Taken)];
      RunSnoc(cleared, Dispatch(v, Taken), exclusive);
      assert v in t.workers && t.workers[v] == s.workers[v];
      var log := Run(cleared + after, exclusive).log;
      assert log[|t.log|] == Handled(h, s.workers[v].plaintext);
      assert HandledSince(cleared, after, exclusive, h);
      assert Evict(h) !in after;
    } else {
      assert Settled(t, h);
      forall after | Evict(h) !in after ensures !HandledSince(cleared, after, exclusive, h) {
        SettledStays(cleared, after, exclusive, h);
      }
    }
  }

  /** If deliveries of one hash do not overlap, nobody else can hold it, so a cleared hash reaches a handler only after an eviction. */
  lemma {:induction false} ExclusiveClearIsFinal(before: seq<Action>, w: nat, after: seq<Action>, h: Hash)
    requires var s := Run(before, true); w in s.workers && s.workers[w] == Accepted(h) && h in s.rows
    requires Evict(h) !in after
    ensures !HandledSince(before + [Clear(w, true)], after, true, h)
  {
    RunKeepsInv(before, true);
    HandledAfterClearIff(before, w, true, h);
  }

  /** If deliveries of one hash do not overlap, no handler sees a hash after it was cleared, unless it was evicted in between. */
  lemma {:induction false} NoHandlerAfterClear(actions: seq<Action>, p: nat, r: nat)
    requires p < r < |Run(actions, true).log|
    requires var log := Run(actions, true).log; log[p].Cleared? && log[r].Handled? && log[p].hash == log[r].hash
    ensures var log := Run(actions, true).log; EvictedBetween(log, p, r, log[p].hash)
  {
    RunKeepsInv(actions, true);
    var log := Run(actions, true).log;
    assert Lawful(log[..r], log[r], true);
    if !EvictedBetween(log, p, r, log[p].hash) {
      StaysKnown(log, p, r, log[p].hash, true);
      assert false;
    }
  }

  /** Every delivery of a hash that is never evicted shows its handlers the same plaintext, the one committed. */
  lemma {:induction false} HandlersSeeOnePlaintext(actions: seq<Action>, exclusive: bool, p: nat, r: nat)
    requires p < |Run(actions, exclusive).log| && r < |Run(actions, exclusive).log|
    requires var log := Run(actions, exclusive).log;
             && log[p].Handled? && log[r].Handled? && log[p].hash == log[r].hash
             && !EvictedBetween(log, -1, |log|, log[p].hash)
    ensures var log := Run(actions, exclusive).log;
            log[p].plaintext == log[r].plaintext && HasCommit(log, log[p].hash, log[p].plaintext)
  {
    RunKeepsInv(actions, exclusive);
    var log := Run(actions, exclusive).log;
    var h := log[p].hash;
    assert Lawful(log[..p], log[p], exclusive) && Lawful(log[..r], log[r], exclusive);
    var i :| 0 <= i < p && log[..p][i] == Committed(h, log[p].plaintext);
    var j :| 0 <= j < r && log[..r][j] == Committed(h, log[r].plaintext);
    assert log[i] == Committed(h, log[p].plaintext) && log[j] == Committed(h, log[r].plaintext);
    if i < j {
      RatchetCommitsOnce(actions, exclusive, i, j);
      assert false;
    } else if j < i {
      RatchetCommitsOnce(actions, exclusive, j, i);
      assert false;
    }
  }

  /** Two deliveries of one hash, the second looked up before the first is cleared and handled after. */
  function Overlap(h: Hash, p: Bytes): seq<Action> {
    [Lookup(0, h)] + [Transact(0, Some(p), true)] + [Lookup(1, h)] + [Dispatch(0, Taken)] + [Clear(0, true)] + [Dispatch(1, Taken)]
  }

  /** If they may overlap, a handler can see a hash that was cleared and not evicted. */
  lemma {:induction false} OverlapHandlesAfterClear(h: Hash, p: Bytes)
    ensures Run(Overlap(h, p), false).log == [Committed(h, p), Handled(h, p), Cleared(h), Handled(h, p)]
  {
    var a0 := [Lookup(0, h)];
    var a1 := a0 + [Transact(0, Some(p), true)];
    var a2 := a1 + [Lookup(1, h)];
    var a3 := a2 + [Dispatch(0, Taken)];
    var a4 := a3 + [Clear(0, true)];
    RunSnoc([], Lookup(0, h), false);
    assert [] + [Lookup(0, h)] == a0;
    RunSnoc(a0, Transact(0, Some(p), true), false);
    RunSnoc(a1, Lookup(1, h), false);
    RunSnoc(a2, Dispatch(0, Taken), false);
    RunSnoc(a3, Clear(0, true), false);
    RunSnoc(a4, Dispatch(1, Taken), false);
    assert Run(a2, false).workers[1] == Have(h, p);
    assert Run(a4, false).workers[1] == Have(h, p);
  }

  // ---------- the code of a delivery ----------

  datatype DecryptError = StoreFailed | AlreadyProcessed | DecryptFailed

  class Receiver {
    var rows: Rows
    ghost var log: seq<Event>

    constructor ()
      ensures S() == INITIAL
    {
      rows, log := map[], [];
    }

    ghost function S(): State
      reads this
    {
      State(rows, map[], log)
    }

    /** bufferedDecrypt with the buffer enabled; the ratchet runs only for a hash without a row. */
    method BufferedDecrypt(h: Hash, readOk: bool, decrypted: Option<Bytes>, commitOk: bool) returns (r: Result<Bytes, DecryptError>)
      modifies this
      ensures !readOk ==> r == Err(StoreFailed) && S() == old(S())
      ensures readOk ==>
                var t := Next(Next(old(S()), Lookup(0, h), true), Transact(0, decrypted, commitOk), true);
                && rows == t.rows && log == t.log
                && match old(RowStatus(rows, h))
                   case Processed => r == Err(AlreadyProcessed) && t == old(S())
                   case Buffered(p) => r == Ok(p) && t.workers == map[0 := Have(h, p)] && log == old(log)
                   case Unknown => if decrypted.Some? && commitOk then r == Ok(decrypted.value) && t.workers == map[0 := Have(h, decrypted.value)]
                                   else r == Err(DecryptFailed) && t == old(S())
    {
      if !readOk {
        return Err(StoreFailed);
      }
      if h in rows {
        if rows[h].None? {
          return Err(AlreadyProcessed);
        }
        return Ok(rows[h].value);
      }
      assert map[0 := Missed(h)] - {0} == map[];
      if decrypted.None? || !commitOk {
        return Err(DecryptFailed);
      }
      rows := rows[h := decrypted];
      log := log + [Committed(h, decrypted.value)];
      r := Ok(decrypted.value);
    }

    /** One <enc> child of decryptMessages, from lookup to clearing. */
    method Deliver(h: Hash, readOk: bool, decrypted: Option<Bytes>, commitOk: bool, verdict: Verdict, clearOk: bool)
      modifies this
      ensures S() == if !readOk then old(S())
                     else Next(Next(Next(Next(old(S()), Lookup(0, h), true), Transact(0, decrypted, commitOk), true),
                                    Dispatch(0, verdict), true), Clear(0, clearOk), true)
    {
      ghost var s1 := Next(S(), Lookup(0, h), true);
      ghost var s2 := Next(s1, Transact(0, decrypted, commitOk), true);
      var plaintext := BufferedDecrypt(h, readOk, decrypted, commitOk);
      if plaintext.Err? {
        return;
      }
      ghost var p := plaintext.value;
      assert map[0 := Have(h, p)] - {0} == map[] && map[0 := Accepted(h)] - {0} == map[];
      assert map[0 := Have(h, p)][0 := Accepted(h)] == map[0 := Accepted(h)];
      if verdict.Rejected? || verdict.Taken? {
        log := log + [Handled(h, p)];
      }
      if verdict.Unusable? || verdict.Rejected? {
        return;
      }
      if clearOk && h in rows {
        rows := rows[h := None];
        log := log + [Cleared(h)];
      }
    }
  }
}
