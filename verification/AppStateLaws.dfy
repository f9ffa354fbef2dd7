/**
 What holds of a collection across whole runs of patches, snapshots and fetches:
 the stored hash always describes the stored rows, and failures leave a prefix behind.
 */
module AppStateLaws {
  import opened Prelude
  import opened LtHash
  import opened AppStateModel
  import opened AppStateTable
  import opened AppStateStore
  import opened AppStateDecode

  /** GetAppStateVersion: no row means version 0 and an all-zero hash. */
  function StateOf(c: Collection): HashState { if c.saved.Some? then c.saved.value else EmptyState() }

  /** The saved hash is the one recomputed from the rows the store would return; no rows without a version row. */
  ghost predicate InStep(x: Expansion, c: Collection) {
    StateOf(c).hash == TableHash(x, Live(c.rows)) && (c.saved.None? ==> c.rows == map[])
  }

  /** In step, and no row is newer than the saved version. */
  ghost predicate Consistent(x: Expansion, c: Collection) {
    InStep(x, c) && RowsUpTo(c.rows, StateOf(c).version)
  }

  const EMPTY := Collection(None, map[])

  lemma {:induction false} EmptyIsConsistent(x: Expansion)
    ensures Consistent(x, EMPTY)
  {
  }

  lemma {:induction false} AddedWidths(ms: seq<SyncdMutation>)
    requires SetsSliceable(ms) && forall i :: 0 <= i < |ms| ==> |ms[i].indexBlob| == MAC_SIZE
    ensures forall e :: e in OutputOf(ms).added ==> |e.index| == MAC_SIZE && |e.value| == MAC_SIZE
  {
    if ms != [] {
      AddedWidths(ms[..|ms| - 1]);
      WithoutIsSubset(OutputOf(ms[..|ms| - 1]).added, ms[|ms| - 1].indexBlob);
    }
  }

  lemma {:induction false} WithoutIsSubset(es: seq<MacEntry>, idx: Bytes)
    ensures forall e :: e in Without(es, idx) ==> e in es
  {
    if es != [] {
      WithoutIsSubset(es[..|es| - 1], idx);
    }
  }

  // ---------- one patch ----------

  /**
   A checked patch of any version either fails, or is stored.  Then the store holds exactly its mutations applied if and
   only if no newer row shadows one of them, and hash and rows stay in step if and only if the two tables hash alike.
   */
  lemma {:induction false} PatchStaysInStepIff(env: Env, name: Bytes, c: Collection, patch: SyncdPatch)
    requires InStep(env.expand, c)
    ensures var a := ApplyPatch(env, name, c, StateOf(c), patch, true);
            match a.result
            case Ok(done) =>
              && SetsSliceable(patch.mutations) && DecodeAll(env, patch.mutations, true, patch.version) == Ok(done.mutations)
              && a.coll.saved == Some(done.state) && done.state.version == patch.version
              && (Live(a.coll.rows) == ApplyAll(Live(c.rows), patch.mutations) <==> !Shadowed(c.rows, patch.version, patch.mutations))
              && (InStep(env.expand, a.coll) <==>
                  TableHash(env.expand, Live(a.coll.rows)) == TableHash(env.expand, ApplyAll(Live(c.rows), patch.mutations)))
            case Err(e) => e != ConstraintViolation ==> a.coll == c
  {
    ApplyPatchCases(env, name, c, StateOf(c), patch, true);
    if ApplyPatch(env, name, c, StateOf(c), patch, true).result.Ok? {
      NewStateHash(env, c, patch);
      StoredTableIff(c, NewState(env, c.rows, patch, StateOf(c)), patch.mutations);
    }
  }

  /**
   A checked patch of a later version either changes nothing or moves the collection to its own version,
   with exactly its mutations applied; the database refuses it only if it sets an index twice.
   */
  lemma {:induction false} PatchPreservesConsistency(env: Env, name: Bytes, c: Collection, patch: SyncdPatch)
    requires Consistent(env.expand, c)
    requires StateOf(c).version < patch.version
    ensures var a := ApplyPatch(env, name, c, StateOf(c), patch, true);
            match a.result
            case Ok(done) =>
              && SetsSliceable(patch.mutations) && SetsAtMostOnce(patch.mutations)
              && Consistent(env.expand, a.coll) && a.coll.saved == Some(done.state) && done.state.version == patch.version
              && Live(a.coll.rows) == ApplyAll(Live(c.rows), patch.mutations)
              && DecodeAll(env, patch.mutations, true, patch.version) == Ok(done.mutations)
            case Err(e) =>
              && (e != ConstraintViolation ==> a.coll == c)
              && (e == ConstraintViolation ==> !SetsAtMostOnce(patch.mutations))
  {
    PatchStaysInStepIff(env, name, c, patch);
    ApplyPatchCases(env, name, c, StateOf(c), patch, true);
    var a := ApplyPatch(env, name, c, StateOf(c), patch, true);
    if a.result.Ok? || a.result.error == ConstraintViolation {
      LaterPatchIsFresh(env, c, NewState(env, c.rows, patch, StateOf(c)), patch.mutations);
    }
  }

  lemma {:induction false} LaterPatchIsFresh(env: Env, c: Collection, s: HashState, ms: seq<SyncdMutation>)
    requires Consistent(env.expand, c) && StateOf(c).version < s.version
    requires SetsSliceable(ms) && DecodeAll(env, ms, true, s.version).Ok?
    ensures var stored := StoreMacsSpec(c, s, OutputOf(ms));
            && (stored.error.None? <==> SetsAtMostOnce(ms)) && RowsUpTo(stored.coll.rows, s.version)
            && (SetsAtMostOnce(ms) ==> Live(stored.coll.rows) == ApplyAll(Live(c.rows), ms))
  {
    DecodeAllElements(env, ms, true, s.version);
    AddedWidths(ms);
    FreshStore(c, StateOf(c).version, s, ms);
  }

  lemma {:induction false} NewStateHash(env: Env, c: Collection, patch: SyncdPatch)
    requires InStep(env.expand, c) && SetsSliceable(patch.mutations)
    ensures NewState(env, c.rows, patch, StateOf(c)).hash == TableHash(env.expand, ApplyAll(Live(c.rows), patch.mutations))
  {
    var ms := patch.mutations;
    assert ms[..|ms|] == ms;
    HashTracksTable(env.expand, StateOf(c).hash, Live(c.rows), ms, |ms|);
  }

  // ---------- any number of patches ----------

  /** No patch that is stored on the way is shadowed by newer rows. */
  ghost predicate Unshadowed(env: Env, name: Bytes, c: Collection, patches: seq<SyncdPatch>)
    decreases |patches|
  {
    patches != [] ==>
      var a := ApplyPatch(env, name, c, StateOf(c), patches[0], true);
      a.result.Ok? ==>
        && SetsSliceable(patches[0].mutations) && !Shadowed(c.rows, patches[0].version, patches[0].mutations)
        && Unshadowed(env, name, a.coll, patches[1..])
  }

  /** Whatever the versions: hash and rows stay in step through every run of unshadowed patches that is not refused. */
  lemma {:induction false} PatchesStayInStep(env: Env, name: Bytes, c: Collection, acc: seq<Mutation>, patches: seq<SyncdPatch>)
    requires InStep(env.expand, c) && Unshadowed(env, name, c, patches)
    ensures var o := ApplyPatches(env, name, c, StateOf(c), acc, patches, true);
            o.error != Some(ConstraintViolation) ==> InStep(env.expand, o.coll) && StateOf(o.coll) == o.state
    decreases |patches|
  {
    if patches != [] {
      PatchStaysInStepIff(env, name, c, patches[0]);
      var a := ApplyPatch(env, name, c, StateOf(c), patches[0], true);
      if a.result.Ok? {
        PatchesStayInStep(env, name, a.coll, acc + a.result.value.mutations, patches[1..]);
      }
    }
  }

  /** Versions that grow are never shadowed. */
  lemma {:induction false} GrowingIsUnshadowed(env: Env, name: Bytes, c: Collection, patches: seq<SyncdPatch>)
    requires Consistent(env.expand, c) && Growing(StateOf(c).version, patches)
    ensures Unshadowed(env, name, c, patches)
    decreases |patches|
  {
    if patches != [] {
      PatchPreservesConsistency(env, name, c, patches[0]);
      PatchStaysInStepIff(env, name, c, patches[0]);
      var a := ApplyPatch(env, name, c, StateOf(c), patches[0], true);
      if a.result.Ok? {
        GrowingIsUnshadowed(env, name, a.coll, patches[1..]);
      }
    }
  }

  /** What the server promises: versions grow. */
  ghost predicate Growing(last: uint64, patches: seq<SyncdPatch>)
    decreases |patches|
  {
    patches != [] ==> last < patches[0].version && Growing(patches[0].version, patches[1..])
  }

  /** Whatever the patches set, remove and repeat, hash and rows stay in step unless the database refuses a write. */
  lemma {:induction false} PatchesPreserveConsistency(env: Env, name: Bytes, c: Collection, acc: seq<Mutation>, patches: seq<SyncdPatch>)
    requires Consistent(env.expand, c) && Growing(StateOf(c).version, patches)
    ensures var o := ApplyPatches(env, name, c, StateOf(c), acc, patches, true);
            && (o.error != Some(ConstraintViolation) ==> Consistent(env.expand, o.coll) && StateOf(o.coll) == o.state)
            && (o.error.None? ==> o.state.version == LastVersion(StateOf(c).version, patches))
    decreases |patches|
  {
    if patches != [] {
      PatchPreservesConsistency(env, name, c, patches[0]);
      var a := ApplyPatch(env, name, c, StateOf(c), patches[0], true);
      if a.result.Ok? {
        PatchesPreserveConsistency(env, name, a.coll, acc + a.result.value.mutations, patches[1..]);
      }
    }
  }

  function LastVersion(last: uint64, patches: seq<SyncdPatch>): uint64 {
    if patches == [] then last else patches[|patches| - 1].version
  }

  /**
   A failure at patch k, whatever the patches are, leaves exactly the outcome of the patches before k:
   their collection (unless the database itself refused patch k), their state and their mutations.
   */
  lemma {:induction false} FailureLeavesPrefix(env: Env, name: Bytes, c: Collection, cur: HashState, acc: seq<Mutation>,
                                               patches: seq<SyncdPatch>, validate: bool) returns (k: nat)
    requires ApplyPatches(env, name, c, cur, acc, patches, validate).error.Some?
    ensures k < |patches|
    ensures var o, p := ApplyPatches(env, name, c, cur, acc, patches, validate), ApplyPatches(env, name, c, cur, acc, patches[..k], validate);
            && p.error.None? && o.state == p.state && o.mutations == p.mutations
            && ApplyPatch(env, name, p.coll, p.state, patches[k], validate).result == Err(o.error.value)
            && (o.error != Some(ConstraintViolation) ==> o.coll == p.coll)
    decreases |patches|
  {
    var a := ApplyPatch(env, name, c, cur, patches[0], validate);
    if a.result.Err? {
      k := 0;
      NotViolationLeavesStore(env, name, c, cur, patches[0], validate);
    } else {
      var done := a.result.value;
      var j := FailureLeavesPrefix(env, name, a.coll, done.state, acc + done.mutations, patches[1..], validate);
      k := j + 1;
      assert patches[..k][0] == patches[0] && patches[..k][1..] == patches[1..][..j];
    }
  }

  lemma {:induction false} NotViolationLeavesStore(env: Env, name: Bytes, c: Collection, cur: HashState, patch: SyncdPatch, validate: bool)
    ensures var a := ApplyPatch(env, name, c, cur, patch, validate);
            a.result.Err? && a.result.error != ConstraintViolation ==> a.coll == c
    ensures var a := ApplyPatch(env, name, c, cur, patch, validate);
            a.result.Ok? ==> a.coll.saved == Some(a.result.value.state)
  {
  }

  /** The state returned after a run of patches is the stored one, if the run began at the stored one. */
  lemma {:induction false} ReturnedStateIsStored(env: Env, name: Bytes, c: Collection, acc: seq<Mutation>, patches: seq<SyncdPatch>, validate: bool)
    ensures var o := ApplyPatches(env, name, c, StateOf(c), acc, patches, validate);
            o.error != Some(ConstraintViolation) ==> StateOf(o.coll) == o.state
    decreases |patches|
  {
    if patches != [] {
      NotViolationLeavesStore(env, name, c, StateOf(c), patches[0], validate);
      var a := ApplyPatch(env, name, c, StateOf(c), patches[0], validate);
      if a.result.Ok? {
        ReturnedStateIsStored(env, name, a.coll, acc + a.result.value.mutations, patches[1..], validate);
      }
    }
  }

  // ---------- refused writes ----------

  /** A row the patch would insert is there already. */
  ghost predicate Collides(rows: Rows, v: uint64, ms: seq<SyncdMutation>)
    requires SetsSliceable(ms)
  {
    exists e :: e in OutputOf(ms).added && RowKey(v, e.index) in rows && e.index !in OutputOf(ms).removed
  }

  /** The patch gets past every check and is refused by the database. */
  ghost predicate RefusedAt(env: Env, name: Bytes, c: Collection, cur: HashState, patch: SyncdPatch) {
    && ValidatePatchSpec(env, name, c.rows, patch, cur, true).Ok?
    && DecodeAll(env, patch.mutations, true, patch.version).Ok?
    && SetsSliceable(patch.mutations)
    && (!SetsAtMostOnce(patch.mutations) || Collides(c.rows, patch.version, patch.mutations))
  }

  /** Of any version, into any collection, a patch is refused exactly then. */
  lemma {:induction false} PatchRefusedIff(env: Env, name: Bytes, c: Collection, cur: HashState, patch: SyncdPatch)
    ensures ApplyPatch(env, name, c, cur, patch, true).result == Err(ConstraintViolation) <==> RefusedAt(env, name, c, cur, patch)
  {
    ApplyPatchCases(env, name, c, cur, patch, true);
    if DecodeAll(env, patch.mutations, true, patch.version).Ok? && SetsSliceable(patch.mutations) {
      var s := NewState(env, c.rows, patch, cur);
      StoreRefusedIff(env, c, s, patch.mutations);
      if ValidatePatchSpec(env, name, c.rows, patch, cur, true).Ok? {
        AcceptedPatch(env, name, c, cur, patch, true, s, DecodeAll(env, patch.mutations, true, patch.version).value);
      }
    }
  }

  lemma {:induction false} StoreRefusedIff(env: Env, c: Collection, s: HashState, ms: seq<SyncdMutation>)
    requires SetsSliceable(ms) && DecodeAll(env, ms, true, s.version).Ok?
    ensures StoreMacsSpec(c, s, OutputOf(ms)).error.Some? <==> !SetsAtMostOnce(ms) || Collides(c.rows, s.version, ms)
  {
    DecodeAllElements(env, ms, true, s.version);
    AddedWidths(ms);
    StoreSucceedsIff(c, s, ms);
  }

  /** Patch k is reached: the patches before it were all stored. */
  ghost predicate RefusedAtPatch(env: Env, name: Bytes, c: Collection, patches: seq<SyncdPatch>, k: nat)
    requires k < |patches|
  {
    var p := ApplyPatches(env, name, c, StateOf(c), [], patches[..k], true);
    p.error.None? && RefusedAt(env, name, p.coll, p.state, patches[k])
  }

  /** The mutations collected so far decide nothing. */
  lemma {:induction false} AccumulatorIsIdle(env: Env, name: Bytes, c: Collection, cur: HashState, acc: seq<Mutation>, acc': seq<Mutation>,
                                             patches: seq<SyncdPatch>, validate: bool)
    ensures var o, o' := ApplyPatches(env, name, c, cur, acc, patches, validate), ApplyPatches(env, name, c, cur, acc', patches, validate);
            o.coll == o'.coll && o.state == o'.state && o.error == o'.error
    decreases |patches|
  {
    if patches != [] {
      var a := ApplyPatch(env, name, c, cur, patches[0], validate);
      if a.result.Ok? {
        var ds := a.result.value.mutations;
        AccumulatorIsIdle(env, name, a.coll, a.result.value.state, acc + ds, acc' + ds, patches[1..], validate);
      }
    }
  }

  /** A run of patches is refused exactly if one that is reached passes every check and sets an index twice or collides. */
  lemma {:induction false} RunRefusedIff(env: Env, name: Bytes, c: Collection, patches: seq<SyncdPatch>)
    ensures ApplyPatches(env, name, c, StateOf(c), [], patches, true).error == Some(ConstraintViolation) <==>
            exists k :: 0 <= k < |patches| && RefusedAtPatch(env, name, c, patches, k)
    decreases |patches|
  {
    if patches != [] {
      PatchRefusedIff(env, name, c, StateOf(c), patches[0]);
      NotViolationLeavesStore(env, name, c, StateOf(c), patches[0], true);
      var a := ApplyPatch(env, name, c, StateOf(c), patches[0], true);
      if a.result.Err? {
        FirstPatchDecides(env, name, c, patches);
      } else {
        var rest := patches[1..];
        RunRefusedIff(env, name, a.coll, rest);
        AccumulatorIsIdle(env, name, a.coll, a.result.value.state, [], [] + a.result.value.mutations, rest, true);
        forall k | 0 <= k < |rest|
          ensures RefusedAtPatch(env, name, a.coll, rest, k) <==> RefusedAtPatch(env, name, c, patches, k + 1)
        {
          LaterPatch(env, name, c, patches, k);
        }
        assert !RefusedAtPatch(env, name, c, patches, 0);
        if k :| 0 <= k < |patches| && RefusedAtPatch(env, name, c, patches, k) {
          assert RefusedAtPatch(env, name, a.coll, rest, k - 1);
        }
      }
    }
  }

  lemma {:induction false} FirstPatchDecides(env: Env, name: Bytes, c: Collection, patches: seq<SyncdPatch>)
    requires patches != [] && ApplyPatch(env, name, c, StateOf(c), patches[0], true).result.Err?
    ensures RefusedAtPatch(env, name, c, patches, 0) <==> RefusedAt(env, name, c, StateOf(c), patches[0])
    ensures forall k :: 0 < k < |patches| ==> !RefusedAtPatch(env, name, c, patches, k)
  {
    forall k | 0 < k < |patches| ensures !RefusedAtPatch(env, name, c, patches, k) {
      assert patches[..k][0] == patches[0];
    }
  }

  lemma {:induction false} LaterPatch(env: Env, name: Bytes, c: Collection, patches: seq<SyncdPatch>, k: nat)
    requires k + 1 < |patches|
    requires var a := ApplyPatch(env, name, c, StateOf(c), patches[0], true);
             a.result.Ok? && StateOf(a.coll) == a.result.value.state
    ensures var a := ApplyPatch(env, name, c, StateOf(c), patches[0], true);
            RefusedAtPatch(env, name, a.coll, patches[1..], k) <==> RefusedAtPatch(env, name, c, patches, k + 1)
  {
    var a := ApplyPatch(env, name, c, StateOf(c), patches[0], true);
    assert patches[..k + 1][0] == patches[0] && patches[..k + 1][1..] == patches[1..][..k];
    AccumulatorIsIdle(env, name, a.coll, a.result.value.state, [], [] + a.result.value.mutations, patches[1..][..k], true);
  }

  /** No version is stored already or comes twice. */
  ghost predicate FreshVersions(rows: Rows, patches: seq<SyncdPatch>) {
    && (forall k, i :: k in rows && 0 <= i < |patches| ==> k.version != patches[i].version)
    && (forall i, j :: 0 <= i < j < |patches| ==> patches[i].version != patches[j].version)
  }

  /** Patches of fresh versions that set no index twice without a later REMOVE are never refused. */
  lemma {:induction false} CarefulPatchesAreNotRefused(env: Env, name: Bytes, c: Collection, cur: HashState, acc: seq<Mutation>,
                                                       patches: seq<SyncdPatch>)
    requires FreshVersions(c.rows, patches)
    requires forall i :: 0 <= i < |patches| ==> SetsAtMostOnce(patches[i].mutations)
    ensures ApplyPatches(env, name, c, cur, acc, patches, true).error != Some(ConstraintViolation)
    decreases |patches|
  {
    if patches != [] {
      PatchRefusedIff(env, name, c, cur, patches[0]);
      var a := ApplyPatch(env, name, c, cur, patches[0], true);
      if a.result.Ok? {
        StoredVersions(env, name, c, cur, patches[0]);
        assert FreshVersions(a.coll.rows, patches[1..]);
        CarefulPatchesAreNotRefused(env, name, a.coll, a.result.value.state, acc + a.result.value.mutations, patches[1..]);
      }
    }
  }

  /** A stored patch adds rows of its own version only. */
  lemma {:induction false} StoredVersions(env: Env, name: Bytes, c: Collection, cur: HashState, patch: SyncdPatch)
    requires ApplyPatch(env, name, c, cur, patch, true).result.Ok?
    ensures forall k :: k in ApplyPatch(env, name, c, cur, patch, true).coll.rows ==> k in c.rows || k.version == patch.version
  {
    ApplyPatchCases(env, name, c, cur, patch, true);
    var out := OutputOf(patch.mutations);
    forall k | k in ApplyPatch(env, name, c, cur, patch, true).coll.rows ensures k in c.rows || k.version == patch.version {
      InsertedKeys(Deleted(c.rows, out.removed), patch.version, out.added, k);
    }
  }

  lemma {:induction false} GrowingIsFresh(rows: Rows, last: uint64, patches: seq<SyncdPatch>)
    requires RowsUpTo(rows, last) && Growing(last, patches)
    ensures FreshVersions(rows, patches)
    ensures forall i :: 0 <= i < |patches| ==> last < patches[i].version
    decreases |patches|
  {
    if patches != [] {
      GrowingIsFresh(map[], patches[0].version, patches[1..]);
      forall i | 0 <= i < |patches| ensures last < patches[i].version {
        assert i > 0 ==> patches[i] == patches[1..][i - 1];
      }
      forall i, j | 0 <= i < j < |patches| ensures patches[i].version != patches[j].version {
        assert patches[j] == patches[1..][j - 1] && (i > 0 ==> patches[i] == patches[1..][i - 1]);
      }
    }
  }

  // ---------- a snapshot ----------

  ghost predicate DistinctRecords(ss: SyncdSnapshot) {
    forall i, j :: 0 <= i < j < |ss.records| ==> ss.records[i].indexBlob != ss.records[j].indexBlob
  }

  /** Into an empty collection, any snapshot is stored whole, in step with its hash, or not at all, unless it is refused. */
  lemma {:induction false} SnapshotEstablishesConsistency(env: Env, name: Bytes, ss: SyncdSnapshot)
    ensures var o := DecodeSnapshotSpec(env, name, EMPTY, EmptyState(), ss, true);
            && (o.error != Some(ConstraintViolation) ==> Consistent(env.expand, o.coll))
            && (o.error.None? ==> o.coll.saved == Some(o.state) && o.state.version == ss.version)
            && (o.error.Some? && o.error.value != ConstraintViolation ==> o.coll == EMPTY)
  {
    EmptyIsConsistent(env.expand);
    DecodeSnapshotCases(env, name, EMPTY, EmptyState(), ss, true);
    var o := DecodeSnapshotSpec(env, name, EMPTY, EmptyState(), ss, true);
    if o.error.None? {
      SnapshotStoredIff(env, ss, o.state);
      SnapshotStateHash(env, ss);
      SnapshotStored(env, ss, o.state);
    }
  }

  /** The snapshot is refused exactly if it gets past every check and repeats an index. */
  lemma {:induction false} SnapshotRefusedIff(env: Env, name: Bytes, ss: SyncdSnapshot)
    ensures DecodeSnapshotSpec(env, name, EMPTY, EmptyState(), ss, true).error == Some(ConstraintViolation) <==>
            && SetsSliceable(SnapshotMutations(ss.records))
            && CheckSnapshotMac(env, name, SnapshotState(env, EmptyState(), ss), ss.keyId, ss.mac).Ok?
            && DecodeAll(env, SnapshotMutations(ss.records), true, ss.version).Ok?
            && !DistinctRecords(ss)
  {
    var ms := SnapshotMutations(ss.records);
    if SetsSliceable(ms) && DecodeAll(env, ms, true, ss.version).Ok? {
      SnapshotStoredIff(env, ss, SnapshotState(env, EmptyState(), ss));
    }
  }

  lemma {:induction false} SnapshotStoredIff(env: Env, ss: SyncdSnapshot, s: HashState)
    requires s.version == ss.version
    requires var ms := SnapshotMutations(ss.records); SetsSliceable(ms) && DecodeAll(env, ms, true, s.version).Ok?
    ensures StoreMacsSpec(EMPTY, s, OutputOf(SnapshotMutations(ss.records))).error.None? <==> DistinctRecords(ss)
  {
    var ms := SnapshotMutations(ss.records);
    if DistinctRecords(ss) {
      SnapshotStored(env, ss, s);
    } else {
      var i, j :| 0 <= i < j < |ss.records| && ss.records[i].indexBlob == ss.records[j].indexBlob;
      RepeatedSetsArePending(ms, i, j);
      StoreSucceedsIff(EMPTY, s, ms);
    }
  }

  lemma {:induction false} RepeatedSetsArePending(ms: seq<SyncdMutation>, i: nat, j: nat)
    requires i < j < |ms| && ms[i].indexBlob == ms[j].indexBlob
    requires forall n :: 0 <= n < |ms| ==> ms[n].op == SET
    ensures PendingSets(ms, ms[i].indexBlob) >= 2
  {
    var n := |ms| - 1;
    if j == n {
      SetIsPending(ms[..n], i);
    } else {
      RepeatedSetsArePending(ms[..n], i, j);
    }
  }

  lemma {:induction false} SetIsPending(ms: seq<SyncdMutation>, i: nat)
    requires i < |ms| && forall n :: 0 <= n < |ms| ==> ms[n].op == SET
    ensures PendingSets(ms, ms[i].indexBlob) >= 1
  {
    if i < |ms| - 1 {
      SetIsPending(ms[..|ms| - 1], i);
    }
  }

  /** A snapshot that fails after its state was computed, with a state that is not the stored one. */
  ghost predicate FailsWithForeignState(env: Env, c: Collection, list: PatchList, validate: bool) {
    && list.snapshot.Some? && SetsSliceable(SnapshotMutations(list.snapshot.value.records))
    && DecodeSnapshotSpec(env, list.name, c, StateOf(c), list.snapshot.value, validate).error.Some?
    && SnapshotState(env, StateOf(c), list.snapshot.value) != StateOf(c)
  }

  /** DecodePatches as a whole, unless refused, returns the stored state exactly if no snapshot fails with a foreign one. */
  lemma {:induction false} ReturnedStateIsStoredIff(env: Env, c: Collection, list: PatchList, validate: bool)
    ensures var o := DecodePatchesSpec(env, c, list, StateOf(c), validate);
            o.error != Some(ConstraintViolation) ==> (StateOf(o.coll) == o.state <==> !FailsWithForeignState(env, c, list, validate))
  {
    match list.snapshot
    case None => ReturnedStateIsStored(env, list.name, c, [], list.patches, validate);
    case Some(ss) =>
      DecodeSnapshotCases(env, list.name, c, StateOf(c), ss, validate);
      var o := DecodeSnapshotSpec(env, list.name, c, StateOf(c), ss, validate);
      if o.error.None? {
        ReturnedStateIsStored(env, list.name, o.coll, o.mutations, list.patches, validate);
      }
  }

  lemma {:induction false} SnapshotStateHash(env: Env, ss: SyncdSnapshot)
    requires DistinctRecords(ss) && SetsSliceable(SnapshotMutations(ss.records))
    ensures SnapshotState(env, EmptyState(), ss).hash == TableHash(env.expand, ApplyAll(map[], SnapshotMutations(ss.records)))
  {
    var ms := SnapshotMutations(ss.records);
    assert ms[..|ms|] == ms;
    SnapshotHashTracksTable(env.expand, ms, |ms|);
  }

  lemma {:induction false} SnapshotStored(env: Env, ss: SyncdSnapshot, s: HashState)
    requires DistinctRecords(ss) && s.version == ss.version
    requires var ms := SnapshotMutations(ss.records); SetsSliceable(ms) && DecodeAll(env, ms, true, s.version).Ok?
    ensures var ms := SnapshotMutations(ss.records);
            var stored := StoreMacsSpec(EMPTY, s, OutputOf(ms));
            && stored.error.None? && stored.coll.saved == Some(s) && RowsUpTo(stored.coll.rows, s.version)
            && Live(stored.coll.rows) == ApplyAll(map[], ms)
  {
    var c, ms := EMPTY, SnapshotMutations(ss.records);
    DecodeAllElements(env, ms, true, s.version);
    AddedWidths(ms);
    forall k ensures PendingSets(ms, k) <= 1 {
      DistinctPending(ms, k);
    }
    StoreSucceedsIff(c, s, ms);
    StoredTableIff(c, s, ms);
    assert Live(c.rows) == map[];
    forall k | k in StoreMacsSpec(c, s, OutputOf(ms)).coll.rows ensures k.version <= s.version {
      InsertedKeys(Deleted(c.rows, OutputOf(ms).removed), s.version, OutputOf(ms).added, k);
    }
  }

  lemma {:induction false} DistinctPending(ms: seq<SyncdMutation>, k: Bytes)
    requires DistinctIndexes(ms)
    ensures PendingSets(ms, k) <= 1
    ensures (forall i :: 0 <= i < |ms| ==> ms[i].indexBlob != k) ==> PendingSets(ms, k) == 0
  {
    if ms != [] {
      DistinctPending(ms[..|ms| - 1], k);
    }
  }
}
