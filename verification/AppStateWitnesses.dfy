/**
 Where a natural reading of the sync code fails, with the exact condition: double SETs (SetsAtMostOnce),
 versions that go backwards (Shadowed) and failed snapshots.
 */
module AppStateWitnesses {
  import opened Prelude
  import opened LtHash
  import opened AppStateModel
  import opened AppStateTable
  import opened AppStateStore
  import opened AppStateDecode
  import opened AppStateLaws
  import opened AppStateEncode

  // ---------- double SETs ----------

  /**
   After a refused write the new hash is saved without the new rows.  The collection is then consistent
   exactly if the whole patch happens to hash like its deletions alone.
   */
  lemma {:induction false} RefusedWriteConsistentIff(env: Env, name: Bytes, c: Collection, patch: SyncdPatch)
    requires Consistent(env.expand, c) && StateOf(c).version < patch.version
    requires ApplyPatch(env, name, c, StateOf(c), patch, true).result == Err(ConstraintViolation)
    ensures SetsSliceable(patch.mutations) && !SetsAtMostOnce(patch.mutations)
    ensures var after := ApplyPatch(env, name, c, StateOf(c), patch, true).coll;
            && after.saved == Some(NewState(env, c.rows, patch, StateOf(c)))
            && Live(after.rows) == DeleteAll(Live(c.rows), OutputOf(patch.mutations).removed)
            && (Consistent(env.expand, after) <==>
                TableHash(env.expand, ApplyAll(Live(c.rows), patch.mutations)) ==
                TableHash(env.expand, DeleteAll(Live(c.rows), OutputOf(patch.mutations).removed)))
  {
    var cur, out := StateOf(c), OutputOf(patch.mutations);
    PatchPreservesConsistency(env, name, c, patch);
    ApplyPatchCases(env, name, c, cur, patch, true);
    NewStateHash(env, c, patch);
    LiveAfterDelete(c.rows, out.removed);
    var after := ApplyPatch(env, name, c, cur, patch, true).coll;
    assert after == Collection(Some(NewState(env, c.rows, patch, cur)), Deleted(c.rows, out.removed));
    assert RowsUpTo(after.rows, patch.version);
  }

  /** A patch of the given mutations with the MACs the decoder expects: signed over the table it leads to. */
  ghost function SignedPatch(env: Env, name: Bytes, c: Collection, keys: Keys, keyId: Bytes, version: uint64, ms: seq<SyncdMutation>): SyncdPatch
    requires AllSliceable(ms)
  {
    var s := NewState(env, c.rows, SyncdPatch(version, ms, [], [], keyId), StateOf(c));
    var mac := SnapshotMac(env, s, name, keys.snapshotMac);
    SyncdPatch(version, ms, mac, PatchMac(env, mac, ms, name, keys.patchMac, version), keyId)
  }

  lemma {:induction false} SignedPatchValidates(env: Env, name: Bytes, c: Collection, keys: Keys, keyId: Bytes, version: uint64, ms: seq<SyncdMutation>)
    requires AllSliceable(ms) && env.keyStore(keyId) == Some(keys)
    ensures var patch := SignedPatch(env, name, c, keys, keyId, version, ms);
            ValidatePatchSpec(env, name, c.rows, patch, StateOf(c), true) == Ok(NewState(env, c.rows, patch, StateOf(c)))
  {
  }

  /** Two encodings of one requested mutation. */
  function Twice(env: Env, keys: Keys, keyId: Bytes, info: MutationInfo, timestamp: int, iv: IV, iv': IV): (ms: seq<SyncdMutation>)
    ensures AllSliceable(ms)
  {
    EncodeMutations(env, keys, keyId, [info, info], timestamp, [iv, iv'])
  }

  lemma {:induction false} TwiceRepeats(env: Env, keys: Keys, keyId: Bytes, info: MutationInfo, timestamp: int, iv: IV, iv': IV)
    ensures Twice(env, keys, keyId, info, timestamp, iv, iv') ==
            [EncodeMutation(env, keys, keyId, info, timestamp, iv), EncodeMutation(env, keys, keyId, info, timestamp, iv')]
  {
    var infos, ivs := [info, info], [iv, iv'];
    var one, oneIv := infos[..1], ivs[..1];
    assert EncodeMutations(env, keys, keyId, one[..0], timestamp, oneIv[..0]) == [];
    assert EncodeMutations(env, keys, keyId, one, timestamp, oneIv) == [EncodeMutation(env, keys, keyId, info, timestamp, iv)];
  }

  /**
   In every consistent collection: a patch that sets one index twice, with every MAC right and every mutation
   decodable, is refused, and its version is saved all the same.
   */
  lemma {:induction false} DoubleSetIsRefused(env: Env, name: Bytes, c: Collection, keys: Keys, keyId: Bytes, version: uint64,
                                              info: MutationInfo, timestamp: int, iv: IV, iv': IV)
    requires RoundTrips(env) && env.keyStore(keyId) == Some(keys)
    requires Consistent(env.expand, c) && StateOf(c).version < version
    ensures var ms := Twice(env, keys, keyId, info, timestamp, iv, iv');
            var patch := SignedPatch(env, name, c, keys, keyId, version, ms);
            var a := ApplyPatch(env, name, c, StateOf(c), patch, true);
            && ValidatePatchSpec(env, name, c.rows, patch, StateOf(c), true).Ok?
            && DecodeAll(env, ms, true, version).Ok?
            && a.result == Err(ConstraintViolation)
            && a.coll.saved.Some? && a.coll.saved.value.version == version && a.coll.rows == c.rows
  {
    var ms := Twice(env, keys, keyId, info, timestamp, iv, iv');
    var patch := SignedPatch(env, name, c, keys, keyId, version, ms);
    TwiceRepeats(env, keys, keyId, info, timestamp, iv, iv');
    SignedPatchValidates(env, name, c, keys, keyId, version, ms);
    EncodedAllDecode(env, keys, keyId, [info, info], timestamp, [iv, iv'], version);
    RepeatedSetsArePending(ms, 0, 1);
    PatchRefusedIff(env, name, c, StateOf(c), patch);
    RefusedSets(env, name, c, patch);
  }

  /** A refused patch of SETs leaves the rows and saves its version. */
  lemma {:induction false} RefusedSets(env: Env, name: Bytes, c: Collection, patch: SyncdPatch)
    requires ApplyPatch(env, name, c, StateOf(c), patch, true).result == Err(ConstraintViolation)
    requires forall i :: 0 <= i < |patch.mutations| ==> patch.mutations[i].op == SET
    ensures SetsSliceable(patch.mutations)
    ensures ApplyPatch(env, name, c, StateOf(c), patch, true).coll == Collection(Some(NewState(env, c.rows, patch, StateOf(c))), c.rows)
  {
    ApplyPatchCases(env, name, c, StateOf(c), patch, true);
    SetsRemoveNothing(patch.mutations);
    assert Deleted(c.rows, []) == c.rows;
  }

  lemma {:induction false} SetsRemoveNothing(ms: seq<SyncdMutation>)
    requires SetsSliceable(ms) && forall i :: 0 <= i < |ms| ==> ms[i].op == SET
    ensures OutputOf(ms).removed == []
  {
    if ms != [] {
      SetsRemoveNothing(ms[..|ms| - 1]);
    }
  }

  // ---------- the encoder's own double SETs ----------

  /** What the encoder subtracts for an index: the stored value, or nothing. */
  ghost function Subtracted(x: Expansion, t: Table, idx: Bytes): Hash { Expanded(x, Find(t, idx)) }

  ghost function Expanded(x: Expansion, value: Option<Bytes>): Hash { if value.Some? then x(value.value) else Zero() }

  /** The hash after one more SET of an index whose previous value, if any, is p. */
  ghost function Replaced(x: Expansion, h: Hash, p: Hash, m: SyncdMutation): Hash
    requires Sliceable(m)
  {
    Add(Sub(h, p), x(ValueMac(m)))
  }

  /** Two SETs of one index, for any lookup: the first subtracts p, the second q. */
  lemma {:induction false} TwoSets(x: Expansion, h: Hash, l: Lookup, ms: seq<SyncdMutation>, p: Option<Bytes>, q: Option<Bytes>)
    requires |ms| == 2 && AllSliceable(ms) && ms[0].op == SET && ms[1].op == SET
    requires p == Prev(l, ms, 0) && q == Prev(l, ms, 1)
    ensures FullHash(x, h, l, ms) == Replaced(x, Replaced(x, h, Expanded(x, p), ms[0]), Expanded(x, q), ms[1])
  {
    SubZero(h);
    SubZero(Replaced(x, h, Expanded(x, p), ms[0]));
    assert ms[..0] == [] && ms[..2] == ms;
    UpdatedHashStep(x, h, l, ms, 0);
    UpdatedHashStep(x, h, l, ms, 1);
  }

  lemma {:induction false} TwoSetsOfOneIndex(x: Expansion, h: Hash, t: Table, ms: seq<SyncdMutation>)
    requires |ms| == 2 && AllSliceable(ms) && ms[0].op == SET && ms[1].op == SET && ms[0].indexBlob == ms[1].indexBlob
    ensures var prior := Subtracted(x, t, ms[0].indexBlob);
            var h1 := Replaced(x, h, prior, ms[0]);
            && FullHash(x, h, StoreOnly(t), ms) == Replaced(x, h1, prior, ms[1])
            && FullHash(x, h, PatchThenStore(t), ms) == Replaced(x, h1, x(ValueMac(ms[0])), ms[1])
  {
    var stored := Find(t, ms[0].indexBlob);
    TwoSets(x, h, StoreOnly(t), ms, stored, stored);
    assert PrevInPatch(ms, 1, ms[1].indexBlob, t) == Some(ValueMac(ms[0]));
    TwoSets(x, h, PatchThenStore(t), ms, stored, Some(ValueMac(ms[0])));
  }

  /**
   A patch the encoder builds from one mutation requested twice is rejected by the decoder, from the same state, exactly
   if the first new value does not happen to expand like what was stored.
   */
  lemma {:induction false} RepeatedRequestIsRejectedIff(env: Env, name: Bytes, rows: Rows, keyId: Bytes, state: HashState,
                                 info: MutationInfo, timestamp: int, iv: IV, iv': IV, patch: SyncdPatch)
    requires EncodeSpec(env, name, rows, keyId, state, [info, info], timestamp, [iv, iv']) == Ok(patch)
    requires AllSliceable(patch.mutations) &&
             var key := env.keyStore(keyId).value.snapshotMac;
             var signed := EncodedState(env, rows, state, patch.mutations);
             var computed := NewState(env, rows, patch.(version := signed.version), state);
             SnapshotMac(env, computed, name, key) == SnapshotMac(env, signed, name, key) ==> computed == signed
    ensures |patch.mutations| == 2
    ensures var signed := EncodedState(env, rows, state, patch.mutations);
            var m := patch.mutations[0];
            ValidatePatchSpec(env, name, rows, patch.(version := signed.version), state, true) == Err(MismatchingLTHash) <==>
            env.expand(ValueMac(m)) != Subtracted(env.expand, Live(rows), m.indexBlob)
  {
    var keys, ms, x := env.keyStore(keyId).value, patch.mutations, env.expand;
    TwiceRepeats(env, keys, keyId, info, timestamp, iv, iv');
    EncodedValidatesIff(env, name, rows, keyId, state, [info, info], timestamp, [iv, iv'], patch);
    TwoSetsOfOneIndex(x, state.hash, Live(rows), ms);
    var prior, first := Subtracted(x, Live(rows), ms[0].indexBlob), x(ValueMac(ms[0]));
    var h1 := Replaced(x, state.hash, prior, ms[0]);
    SubUndoesAdd(Sub(h1, prior), x(ValueMac(ms[1])));
    SubUndoesAdd(Sub(h1, first), x(ValueMac(ms[1])));
    if Sub(h1, prior) == Sub(h1, first) {
      SubIsInjective(h1, prior, first);
    }
  }

  // ---------- versions that go backwards ----------

  function Once(env: Env, keys: Keys, keyId: Bytes, info: MutationInfo, timestamp: int, iv: IV): (ms: seq<SyncdMutation>)
    ensures AllSliceable(ms)
  {
    EncodeMutations(env, keys, keyId, [info], timestamp, [iv])
  }

  lemma {:induction false} OnceIsOne(env: Env, keys: Keys, keyId: Bytes, info: MutationInfo, timestamp: int, iv: IV)
    ensures Once(env, keys, keyId, info, timestamp, iv) == [EncodeMutation(env, keys, keyId, info, timestamp, iv)]
  {
    var infos, ivs := [info], [iv];
    assert EncodeMutations(env, keys, keyId, infos[..0], timestamp, ivs[..0]) == [];
  }

  lemma {:induction false} OneSetOutput(m: SyncdMutation)
    requires Sliceable(m) && m.op == SET
    ensures OutputOf([m]) == Output([], [MacEntry(m.indexBlob, ValueMac(m))]) && SetsAtMostOnce([m])
  {
    assert [m][..0] == [];
  }

  lemma {:induction false} OnceOutput(env: Env, keys: Keys, keyId: Bytes, info: MutationInfo, timestamp: int, iv: IV)
    ensures var ms, m := Once(env, keys, keyId, info, timestamp, iv), EncodeMutation(env, keys, keyId, info, timestamp, iv);
            ms == [m] && OutputOf(ms) == Output([], [MacEntry(m.indexBlob, ValueMac(m))]) && SetsAtMostOnce(ms)
  {
    OnceIsOne(env, keys, keyId, info, timestamp, iv);
    OneSetOutput(EncodeMutation(env, keys, keyId, info, timestamp, iv));
  }

  /**
   A patch that sets an index for which a row of a higher version is stored, every MAC right, is accepted and stored,
   and lookups go on answering with the old value.
   */
  lemma {:induction false} OlderVersionIsShadowed(env: Env, name: Bytes, c: Collection, keys: Keys, keyId: Bytes, version: uint64, newer: uint64,
                                                  info: MutationInfo, timestamp: int, iv: IV)
    requires RoundTrips(env) && env.keyStore(keyId) == Some(keys)
    requires var idx := EncodeMutation(env, keys, keyId, info, timestamp, iv).indexBlob;
             RowKey(newer, idx) in c.rows && version < newer && RowKey(version, idx) !in c.rows
    ensures var ms, m := Once(env, keys, keyId, info, timestamp, iv), EncodeMutation(env, keys, keyId, info, timestamp, iv);
            var a := ApplyPatch(env, name, c, StateOf(c), SignedPatch(env, name, c, keys, keyId, version, ms), true);
            && a.result.Ok?
            && Find(Live(a.coll.rows), m.indexBlob) == Find(Live(c.rows), m.indexBlob)
            && Find(ApplyAll(Live(c.rows), ms), m.indexBlob) == Some(ValueMac(m))
  {
    var ms, m := Once(env, keys, keyId, info, timestamp, iv), EncodeMutation(env, keys, keyId, info, timestamp, iv);
    var patch := SignedPatch(env, name, c, keys, keyId, version, ms);
    var s := NewState(env, c.rows, patch, StateOf(c));
    SignedPatchValidates(env, name, c, keys, keyId, version, ms);
    EncodedAllDecode(env, keys, keyId, [info], timestamp, [iv], version);
    DecodeAllElements(env, ms, true, version);
    OnceOutput(env, keys, keyId, info, timestamp, iv);
    StoreSucceedsIff(c, s, ms);
    StoredFind(c, s, ms, m.indexBlob);
    assert !OlderOnly(c.rows, m.indexBlob, version);
    AppliedFind(Live(c.rows), ms, m.indexBlob);
    assert OutputOf(ms).added[0].index == m.indexBlob;
  }

  /** Such a collection is two patches away from an empty one: version 2, then version 1, of one index. */
  lemma {:induction false} BackwardVersionsAreShadowed(env: Env, name: Bytes, keys: Keys, keyId: Bytes, info: MutationInfo, timestamp: int, iv: IV, iv': IV)
    requires RoundTrips(env) && env.keyStore(keyId) == Some(keys)
    ensures var ms, ms' := Once(env, keys, keyId, info, timestamp, iv), Once(env, keys, keyId, info, timestamp, iv');
            var a := ApplyPatch(env, name, EMPTY, EmptyState(), SignedPatch(env, name, EMPTY, keys, keyId, 2, ms), true);
            var a' := ApplyPatch(env, name, a.coll, StateOf(a.coll), SignedPatch(env, name, a.coll, keys, keyId, 1, ms'), true);
            && a.result.Ok? && a'.result.Ok? && |ms| == |ms'| == 1
            && Find(Live(a'.coll.rows), ms[0].indexBlob) == Some(ValueMac(ms[0]))
            && Find(ApplyAll(Live(a.coll.rows), ms'), ms[0].indexBlob) == Some(ValueMac(ms'[0]))
  {
    var ms := Once(env, keys, keyId, info, timestamp, iv);
    var idx := ms[0].indexBlob;
    OnceOutput(env, keys, keyId, info, timestamp, iv);
    OnceOutput(env, keys, keyId, info, timestamp, iv');
    var c := FirstSetIsStored(env, name, keys, keyId, info, timestamp, iv);
    OlderVersionIsShadowed(env, name, c, keys, keyId, 1, 2, info, timestamp, iv');
  }

  lemma {:induction false} FirstSetIsStored(env: Env, name: Bytes, keys: Keys, keyId: Bytes, info: MutationInfo, timestamp: int, iv: IV)
    returns (c: Collection)
    requires RoundTrips(env) && env.keyStore(keyId) == Some(keys)
    ensures var ms, m := Once(env, keys, keyId, info, timestamp, iv), EncodeMutation(env, keys, keyId, info, timestamp, iv);
            var a := ApplyPatch(env, name, EMPTY, EmptyState(), SignedPatch(env, name, EMPTY, keys, keyId, 2, ms), true);
            && a.result.Ok? && a.coll == c && c.rows == map[RowKey(2, m.indexBlob) := ValueMac(m)]
            && Find(Live(c.rows), m.indexBlob) == Some(ValueMac(m))
  {
    var ms, m := Once(env, keys, keyId, info, timestamp, iv), EncodeMutation(env, keys, keyId, info, timestamp, iv);
    var patch := SignedPatch(env, name, EMPTY, keys, keyId, 2, ms);
    var s := NewState(env, EMPTY.rows, patch, EmptyState());
    SignedPatchValidates(env, name, EMPTY, keys, keyId, 2, ms);
    EncodedAllDecode(env, keys, keyId, [info], timestamp, [iv], 2);
    DecodeAllElements(env, ms, true, 2);
    OnceOutput(env, keys, keyId, info, timestamp, iv);
    StoreSucceedsIff(EMPTY, s, ms);
    c := StoreMacsSpec(EMPTY, s, OutputOf(ms)).coll;
    var e := MacEntry(m.indexBlob, ValueMac(m));
    assert Deleted(map[], []) == map[];
    assert [e][..0] == [];
    assert Inserted(map[], 2, [e]) == map[RowKey(2, m.indexBlob) := ValueMac(m)];
    LiveFind(c.rows, RowKey(2, m.indexBlob));
  }

  // ---------- failed snapshots ----------

  /** Whatever makes a snapshot fail, the state handed back is the snapshot's own, not the stored one. */
  lemma {:induction false} FailedSnapshotState(env: Env, name: Bytes, c: Collection, init: HashState, ss: SyncdSnapshot, validate: bool)
    requires SetsSliceable(SnapshotMutations(ss.records))
    ensures var o := DecodeSnapshotSpec(env, name, c, init, ss, validate);
            && o.state == SnapshotState(env, init, ss)
            && (o.error.Some? && o.error.value != ConstraintViolation ==> o.coll == c)
  {
  }

  /** An unknown key is enough: the returned version differs from the stored one. */
  lemma {:induction false} UnknownKeyReturnsForeignState(env: Env, name: Bytes, ss: SyncdSnapshot)
    requires env.keyStore(ss.keyId).None? && ss.version != 0 && SetsSliceable(SnapshotMutations(ss.records))
    ensures var o := DecodeSnapshotSpec(env, name, Collection(None, map[]), EmptyState(), ss, true);
            o.error == Some(KeyNotFound) && o.state.version == ss.version && StateOf(o.coll).version == 0
  {
  }
}
