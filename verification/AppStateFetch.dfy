/**
 The synchronisation loop of appstate.go: reset if asked, read the stored version, then apply the
 server's replies one by one until it has no more patches.
 */
module AppStateFetch {
  import opened Prelude
  import opened LtHash
  import opened AppStateModel
  import opened AppStateTable
  import opened AppStateStore
  import opened AppStateDecode
  import opened AppStateLaws

  /** One element per request: the parsed patch list, or a failed request. */
  type Replies = seq<Result<PatchList, Failure>>

  datatype FetchOutcome = FetchOutcome(coll: Collection, result: Result<Option<HashState>, Failure>)

  ghost function Rest(env: Env, c: Collection, state: HashState, wantSnapshot: bool, replies: Replies): FetchOutcome
    decreases |replies|
  {
    if replies == [] || replies[0].Err? then FetchOutcome(c, Err(FetchFailed))
    else
      var list := replies[0].value;
      if list.snapshot.Some? && (!wantSnapshot || state != EmptyState()) then FetchOutcome(c, Err(UnexpectedSnapshot))
      else
        var o := DecodePatchesSpec(env, c, list, state, true);
        if o.error.Some? then FetchOutcome(o.coll, Err(o.error.value))
        else if list.hasMore then Rest(env, o.coll, o.state, false, replies[1..])
        else FetchOutcome(o.coll, Ok(Some(o.state)))
  }

  /** What a fetch starts from: everything stored, or nothing after a full sync dropped it. */
  function Start(c: Collection, fullSync: bool): Collection { if fullSync then EMPTY else c }

  ghost function FetchSpec(env: Env, c: Collection, fullSync: bool, onlyIfNotSynced: bool, replies: Replies): FetchOutcome {
    var start := Start(c, fullSync);
    if start.saved.Some? && start.saved.value.version == 0 then FetchOutcome(start, Err(SavedVersionZero))
    else if StateOf(start).version != 0 && onlyIfNotSynced then FetchOutcome(start, Ok(None))
    else Rest(env, start, StateOf(start), fullSync || StateOf(start).version == 0, replies)
  }

  class Client {
    const proc: Processor

    constructor (proc: Processor)
      ensures this.proc == proc
    {
      this.proc := proc;
    }

    /** fetchAppState; deleting the version row cascades to the MAC rows. */
    method FetchAppState(fullSync: bool, onlyIfNotSynced: bool, replies: Replies) returns (result: Result<Option<HashState>, Failure>)
      modifies proc
      ensures FetchOutcome(proc.Coll(), result) == FetchSpec(proc.env, old(proc.Coll()), fullSync, onlyIfNotSynced, replies)
    {
      if fullSync {
        proc.saved, proc.rows := None, map[];
      }
      var state := EmptyState();
      if proc.saved.Some? {
        state := proc.saved.value;
        if state.version == 0 {
          return Err(SavedVersionZero);
        }
      }
      if state.version != 0 && onlyIfNotSynced {
        return Ok(None);
      }
      result := ApplyReplies(state, fullSync || state.version == 0, replies);
    }

    /** The loop over the server's replies. */
    method ApplyReplies(start: HashState, snapshotWanted: bool, replies: Replies) returns (result: Result<Option<HashState>, Failure>)
      modifies proc
      ensures FetchOutcome(proc.Coll(), result) == Rest(proc.env, old(proc.Coll()), start, snapshotWanted, replies)
    {
      var state, wantSnapshot, n := start, snapshotWanted, 0;
      ghost var goal := Rest(proc.env, proc.Coll(), start, snapshotWanted, replies);
      while true
        invariant 0 <= n <= |replies|
        invariant Rest(proc.env, proc.Coll(), state, wantSnapshot, replies[n..]) == goal
        decreases |replies| - n
      {
        if n == |replies| || replies[n].Err? {
          return Err(FetchFailed);
        }
        var list := replies[n].value;
        assert replies[n..][0] == replies[n] && replies[n..][1..] == replies[n + 1..];
        if list.snapshot.Some? && (!wantSnapshot || state != EmptyState()) {
          return Err(UnexpectedSnapshot);
        }
        wantSnapshot := false;
        var _, next, error := proc.DecodePatches(list, state, true);
        if error.Some? {
          return Err(error.value);
        }
        state, n := next, n + 1;
        if !list.hasMore {
          return Ok(Some(state));
        }
      }
    }
  }

  // ---------- the law over whole synchronisations ----------

  /** The version a reply's patches start from. */
  function FirstVersion(last: uint64, list: PatchList): uint64 {
    if list.snapshot.Some? then list.snapshot.value.version else last
  }

  /** Versions grow from a client at version `last` on; what the patches and snapshots contain is up to the server. */
  ghost predicate ServerGrowing(last: uint64, replies: Replies)
    decreases |replies|
  {
    replies != [] && replies[0].Ok? ==>
      var first := FirstVersion(last, replies[0].value);
      Growing(first, replies[0].value.patches) && ServerGrowing(LastVersion(first, replies[0].value.patches), replies[1..])
  }

  lemma {:induction false} ReplyPreservesConsistency(env: Env, c: Collection, list: PatchList)
    requires Consistent(env.expand, c) && (list.snapshot.Some? ==> c.saved.None?)
    requires Growing(FirstVersion(StateOf(c).version, list), list.patches)
    ensures var o := DecodePatchesSpec(env, c, list, StateOf(c), true);
            && (o.error != Some(ConstraintViolation) ==> Consistent(env.expand, o.coll))
            && (o.error.None? ==> StateOf(o.coll) == o.state && o.state.version == LastVersion(FirstVersion(StateOf(c).version, list), list.patches))
  {
    match list.snapshot
    case None => PatchesPreserveConsistency(env, list.name, c, [], list.patches);
    case Some(ss) =>
      SnapshotEstablishesConsistency(env, list.name, ss);
      var o := DecodeSnapshotSpec(env, list.name, c, StateOf(c), ss, true);
      if o.error.None? {
        PatchesPreserveConsistency(env, list.name, o.coll, o.mutations, list.patches);
      }
  }

  /** The loop gets as far as applying its first reply. */
  ghost predicate Applies(c: Collection, wantSnapshot: bool, replies: Replies) {
    replies != [] && replies[0].Ok? && (replies[0].value.snapshot.Some? ==> wantSnapshot && StateOf(c) == EmptyState())
  }

  lemma {:induction false} RestStep(env: Env, c: Collection, wantSnapshot: bool, replies: Replies)
    ensures var f := Rest(env, c, StateOf(c), wantSnapshot, replies);
            if !Applies(c, wantSnapshot, replies) then f.coll == c && f.result.Err? && f.result != Err(ConstraintViolation)
            else
              var o := DecodePatchesSpec(env, c, replies[0].value, StateOf(c), true);
              f == if o.error.Some? then FetchOutcome(o.coll, Err(o.error.value))
                   else if replies[0].value.hasMore then Rest(env, o.coll, o.state, false, replies[1..])
                   else FetchOutcome(o.coll, Ok(Some(o.state)))
  {
  }

  lemma {:induction false} RestPreservesConsistency(env: Env, c: Collection, wantSnapshot: bool, replies: Replies)
    requires Consistent(env.expand, c) && ServerGrowing(StateOf(c).version, replies)
    requires wantSnapshot && StateOf(c) == EmptyState() ==> c.saved.None?
    ensures var f := Rest(env, c, StateOf(c), wantSnapshot, replies);
            && (f.result != Err(ConstraintViolation) ==> Consistent(env.expand, f.coll))
            && (f.result.Ok? ==> f.result.value == Some(StateOf(f.coll)))
    decreases |replies|
  {
    RestStep(env, c, wantSnapshot, replies);
    if Applies(c, wantSnapshot, replies) {
      ReplyPreservesConsistency(env, c, replies[0].value);
      var o := DecodePatchesSpec(env, c, replies[0].value, StateOf(c), true);
      if o.error.None? && replies[0].value.hasMore {
        RestPreservesConsistency(env, o.coll, false, replies[1..]);
      }
    }
  }

  /**
   Every synchronisation, complete or cut short by any failure but a refused write, leaves a stored hash that equals the
   hash recomputed from the stored rows.  A full one does so from whatever was stored before.
   */
  lemma {:induction false} FetchPreservesConsistency(env: Env, c: Collection, fullSync: bool, onlyIfNotSynced: bool, replies: Replies)
    requires fullSync || Consistent(env.expand, c)
    requires ServerGrowing(if fullSync then 0 else StateOf(c).version, replies)
    ensures var f := FetchSpec(env, c, fullSync, onlyIfNotSynced, replies);
            && (f.result != Err(ConstraintViolation) ==> Consistent(env.expand, f.coll))
            && (f.result.Ok? && f.result.value.Some? ==> f.result.value == Some(StateOf(f.coll)))
  {
    var start := Start(c, fullSync);
    EmptyIsConsistent(env.expand);
    assert Consistent(env.expand, start);
    if !(start.saved.Some? && start.saved.value.version == 0) {
      RestPreservesConsistency(env, start, fullSync || StateOf(start).version == 0, replies);
    }
  }

  // ---------- whatever the versions ----------

  ghost predicate ListUnshadowed(env: Env, c: Collection, list: PatchList) {
    match list.snapshot
    case None => Unshadowed(env, list.name, c, list.patches)
    case Some(ss) =>
      var o := DecodeSnapshotSpec(env, list.name, c, StateOf(c), ss, true);
      o.error.None? ==> Unshadowed(env, list.name, o.coll, list.patches)
  }

  /** No patch that the loop stores is shadowed by newer rows. */
  ghost predicate RestUnshadowed(env: Env, c: Collection, wantSnapshot: bool, replies: Replies)
    decreases |replies|
  {
    Applies(c, wantSnapshot, replies) ==>
      var o := DecodePatchesSpec(env, c, replies[0].value, StateOf(c), true);
      && ListUnshadowed(env, c, replies[0].value)
      && (o.error.None? && replies[0].value.hasMore ==> RestUnshadowed(env, o.coll, false, replies[1..]))
  }

  lemma {:induction false} ReplyStaysInStep(env: Env, c: Collection, list: PatchList)
    requires InStep(env.expand, c) && (list.snapshot.Some? ==> c.saved.None?) && ListUnshadowed(env, c, list)
    ensures var o := DecodePatchesSpec(env, c, list, StateOf(c), true);
            && (o.error != Some(ConstraintViolation) ==> InStep(env.expand, o.coll))
            && (o.error.None? ==> StateOf(o.coll) == o.state)
  {
    match list.snapshot
    case None => PatchesStayInStep(env, list.name, c, [], list.patches);
    case Some(ss) =>
      SnapshotEstablishesConsistency(env, list.name, ss);
      var o := DecodeSnapshotSpec(env, list.name, c, StateOf(c), ss, true);
      if o.error.None? {
        PatchesStayInStep(env, list.name, o.coll, o.mutations, list.patches);
      }
  }

  lemma {:induction false} RestStaysInStep(env: Env, c: Collection, wantSnapshot: bool, replies: Replies)
    requires InStep(env.expand, c) && RestUnshadowed(env, c, wantSnapshot, replies)
    requires wantSnapshot && StateOf(c) == EmptyState() ==> c.saved.None?
    ensures var f := Rest(env, c, StateOf(c), wantSnapshot, replies);
            && (f.result != Err(ConstraintViolation) ==> InStep(env.expand, f.coll))
            && (f.result.Ok? ==> f.result.value == Some(StateOf(f.coll)))
    decreases |replies|
  {
    RestStep(env, c, wantSnapshot, replies);
    if Applies(c, wantSnapshot, replies) {
      ReplyStaysInStep(env, c, replies[0].value);
      var o := DecodePatchesSpec(env, c, replies[0].value, StateOf(c), true);
      if o.error.None? && replies[0].value.hasMore {
        RestStaysInStep(env, o.coll, false, replies[1..]);
      }
    }
  }

  /** Versions need not grow: it is enough that no patch stored on the way is shadowed. */
  lemma {:induction false} FetchStaysInStep(env: Env, c: Collection, fullSync: bool, onlyIfNotSynced: bool, replies: Replies)
    requires fullSync || InStep(env.expand, c)
    requires var start := Start(c, fullSync); RestUnshadowed(env, start, fullSync || StateOf(start).version == 0, replies)
    ensures var f := FetchSpec(env, c, fullSync, onlyIfNotSynced, replies);
            && (f.result != Err(ConstraintViolation) ==> InStep(env.expand, f.coll))
            && (f.result.Ok? && f.result.value.Some? ==> f.result.value == Some(StateOf(f.coll)))
  {
    var start := Start(c, fullSync);
    EmptyIsConsistent(env.expand);
    assert InStep(env.expand, start);
    if !(start.saved.Some? && start.saved.value.version == 0) {
      RestStaysInStep(env, start, fullSync || StateOf(start).version == 0, replies);
    }
  }

  // ---------- when a write is refused ----------

  /** No snapshot repeats an index and no patch sets one twice without a later REMOVE. */
  ghost predicate Careful(list: PatchList) {
    && (list.snapshot.Some? ==> DistinctRecords(list.snapshot.value))
    && forall i :: 0 <= i < |list.patches| ==> SetsAtMostOnce(list.patches[i].mutations)
  }

  lemma {:induction false} CarefulReplyIsNotRefused(env: Env, c: Collection, list: PatchList)
    requires Consistent(env.expand, c) && (list.snapshot.Some? ==> c.saved.None?) && Careful(list)
    requires Growing(FirstVersion(StateOf(c).version, list), list.patches)
    ensures DecodePatchesSpec(env, c, list, StateOf(c), true).error != Some(ConstraintViolation)
  {
    match list.snapshot
    case None =>
      GrowingIsFresh(c.rows, StateOf(c).version, list.patches);
      CarefulPatchesAreNotRefused(env, list.name, c, StateOf(c), [], list.patches);
    case Some(ss) =>
      SnapshotEstablishesConsistency(env, list.name, ss);
      SnapshotRefusedIff(env, list.name, ss);
      var o := DecodeSnapshotSpec(env, list.name, c, StateOf(c), ss, true);
      if o.error.None? {
        GrowingIsFresh(o.coll.rows, o.state.version, list.patches);
        CarefulPatchesAreNotRefused(env, list.name, o.coll, o.state, o.mutations, list.patches);
      }
  }

  lemma {:induction false} CarefulRestIsNotRefused(env: Env, c: Collection, wantSnapshot: bool, replies: Replies)
    requires Consistent(env.expand, c) && ServerGrowing(StateOf(c).version, replies)
    requires wantSnapshot && StateOf(c) == EmptyState() ==> c.saved.None?
    requires forall i :: 0 <= i < |replies| && replies[i].Ok? ==> Careful(replies[i].value)
    ensures Rest(env, c, StateOf(c), wantSnapshot, replies).result != Err(ConstraintViolation)
    decreases |replies|
  {
    RestStep(env, c, wantSnapshot, replies);
    if Applies(c, wantSnapshot, replies) {
      CarefulReplyIsNotRefused(env, c, replies[0].value);
      ReplyPreservesConsistency(env, c, replies[0].value);
      var o := DecodePatchesSpec(env, c, replies[0].value, StateOf(c), true);
      if o.error.None? && replies[0].value.hasMore {
        CarefulRestIsNotRefused(env, o.coll, false, replies[1..]);
      }
    }
  }

  /** A server that sends only careful replies never makes the database refuse a write. */
  lemma {:induction false} CarefulFetchIsConsistent(env: Env, c: Collection, fullSync: bool, onlyIfNotSynced: bool, replies: Replies)
    requires fullSync || Consistent(env.expand, c)
    requires ServerGrowing(if fullSync then 0 else StateOf(c).version, replies)
    requires forall i :: 0 <= i < |replies| && replies[i].Ok? ==> Careful(replies[i].value)
    ensures var f := FetchSpec(env, c, fullSync, onlyIfNotSynced, replies);
            f.result != Err(ConstraintViolation) && Consistent(env.expand, f.coll)
  {
    var start := Start(c, fullSync);
    EmptyIsConsistent(env.expand);
    assert Consistent(env.expand, start);
    FetchPreservesConsistency(env, c, fullSync, onlyIfNotSynced, replies);
    if !(start.saved.Some? && start.saved.value.version == 0) {
      CarefulRestIsNotRefused(env, start, fullSync || StateOf(start).version == 0, replies);
    }
  }
}
