/**
 Building a patch (EncodePatch of appstate/encode.go) and its agreement with the decoder.
 */
module AppStateEncode {
  import opened Prelude
  import opened LtHash
  import opened AppStateModel
  import opened AppStateTable
  import opened AppStateStore
  import opened AppStateDecode
  import opened AppStateLaws

  datatype MutationInfo = MutationInfo(index: seq<string>, version: int, value: Bytes)

  type IV = s: Bytes | |s| == IV_SIZE witness seq(IV_SIZE, _ => 0)

  /** The libraries undo themselves: decryption, and parsing of what was printed. */
  ghost predicate RoundTrips(env: Env) {
    && (forall k, iv: IV, p :: env.decrypt(k, iv, env.encrypt(k, iv, p)) == Some(p))
    && (forall a :: env.unmarshalAction(env.marshalAction(a)) == Some(a))
    && (forall i :: env.unmarshalIndex(env.marshalIndex(i)) == Some(i))
  }

  function ActionOf(env: Env, info: MutationInfo, timestamp: int): ActionData {
    ActionData(env.marshalIndex(info.index), env.stamp(info.value, timestamp), info.version)
  }

  function EncodeMutation(env: Env, keys: Keys, keyId: Bytes, info: MutationInfo, timestamp: int, iv: IV): (m: SyncdMutation)
    ensures m.op == SET && Sliceable(m)
  {
    var content := iv + env.encrypt(keys.valueEncryption, iv, env.marshalAction(ActionOf(env, info, timestamp)));
    SyncdMutation(SET, env.hmac256(keys.index, env.marshalIndex(info.index)),
                  content + ContentMac(env, SET, content, keyId, keys.valueMac), keyId)
  }

  function EncodeMutations(env: Env, keys: Keys, keyId: Bytes, infos: seq<MutationInfo>, timestamp: int, ivs: seq<IV>): (ms: seq<SyncdMutation>)
    requires |ivs| == |infos|
    ensures |ms| == |infos| && AllSets(ms)
  {
    if infos == [] then []
    else
      var n := |infos| - 1;
      EncodeMutations(env, keys, keyId, infos[..n], timestamp, ivs[..n]) + [EncodeMutation(env, keys, keyId, infos[n], timestamp, ivs[n])]
  }

  predicate AllSets(ms: seq<SyncdMutation>) {
    forall i :: 0 <= i < |ms| ==> ms[i].op == SET && Sliceable(ms[i])
  }

  /** The state the encoder signs: previous values come from the store alone, the version wraps at 64 bits. */
  ghost function EncodedState(env: Env, rows: Rows, state: HashState, ms: seq<SyncdMutation>): HashState
    requires SetsSliceable(ms)
  {
    HashState((state.version + 1) % 0x1_0000_0000_0000_0000, FullHash(env.expand, state.hash, StoreOnly(Live(rows)), ms))
  }

  /** The patch as sent; the server fills in its version. */
  ghost function EncodeSpec(env: Env, name: Bytes, rows: Rows, keyId: Bytes, state: HashState, infos: seq<MutationInfo>,
                      timestamp: int, ivs: seq<IV>): Result<SyncdPatch, Failure>
    requires |ivs| == |infos|
  {
    match env.keyStore(keyId)
    case None => Err(KeyNotFound)
    case Some(keys) =>
      var ms := EncodeMutations(env, keys, keyId, infos, timestamp, ivs);
      var s := EncodedState(env, rows, state, ms);
      var mac := SnapshotMac(env, s, name, keys.snapshotMac);
      Ok(SyncdPatch(0, ms, mac, PatchMac(env, mac, ms, name, keys.patchMac, s.version), keyId))
  }

  method BuildMutations(env: Env, keys: Keys, keyId: Bytes, infos: seq<MutationInfo>, timestamp: int, ivs: seq<IV>) returns (ms: seq<SyncdMutation>)
    requires |ivs| == |infos|
    ensures ms == EncodeMutations(env, keys, keyId, infos, timestamp, ivs)
  {
    ms := [];
    for i := 0 to |infos|
      invariant ms == EncodeMutations(env, keys, keyId, infos[..i], timestamp, ivs[..i])
    {
      assert infos[..i + 1][..i] == infos[..i] && ivs[..i + 1][..i] == ivs[..i];
      var content := ivs[i] + env.encrypt(keys.valueEncryption, ivs[i], env.marshalAction(ActionOf(env, infos[i], timestamp)));
      var valueMac := ContentMac(env, SET, content, keyId, keys.valueMac);
      var indexMac := env.hmac256(keys.index, env.marshalIndex(infos[i].index));
      ms := ms + [SyncdMutation(SET, indexMac, content + valueMac, keyId)];
    }
    assert infos[..|infos|] == infos && ivs[..|ivs|] == ivs;
  }

  method EncodePatch(proc: Processor, name: Bytes, keyId: Bytes, state: HashState, infos: seq<MutationInfo>,
                     timestamp: int, ivs: seq<IV>) returns (r: Result<SyncdPatch, Failure>)
    requires |ivs| == |infos|
    ensures r == EncodeSpec(proc.env, name, proc.rows, keyId, state, infos, timestamp, ivs)
  {
    var env := proc.env;
    var found := env.keyStore(keyId);
    if found.None? {
      return Err(KeyNotFound);
    }
    var keys := found.value;
    var ms := BuildMutations(env, keys, keyId, infos, timestamp, ivs);
    assert SetsSliceable(ms) && AllSliceable(ms);
    var hashed, _ := Processor.UpdateHash(env, state.hash, StoreOnly(Live(proc.rows)), ms);
    var s := HashState((state.version + 1) % 0x1_0000_0000_0000_0000, hashed.value);
    assert s == EncodedState(env, proc.rows, state, ms);
    var mac := SnapshotMac(env, s, name, keys.snapshotMac);
    var patchMac := GeneratePatchMac(env, mac, ms, name, keys.patchMac, s.version);
    r := Ok(SyncdPatch(0, ms, mac, patchMac.value, keyId));
  }

  // ---------- previous values: store only, or patch then store ----------

  lemma {:induction false} NoEarlierMutation(ms: seq<SyncdMutation>, n: nat, idx: Bytes, t: Table)
    requires n <= |ms| && SetsSliceable(ms[..n])
    requires forall i :: 0 <= i < n ==> ms[i].indexBlob != idx
    ensures PrevInPatch(ms, n, idx, t) == Find(t, idx)
  {
    if n > 0 {
      assert ms[..n][..n - 1] == ms[..n - 1];
      NoEarlierMutation(ms, n - 1, idx, t);
    }
  }

  lemma {:induction false} DistinctLookupsAgree(ms: seq<SyncdMutation>, n: nat, t: Table)
    requires n <= |ms| && SetsSliceable(ms[..n]) && DistinctIndexes(ms)
    ensures Removed(StoreOnly(t), ms, n) == Removed(PatchThenStore(t), ms, n)
  {
    if n > 0 {
      assert ms[..n][..n - 1] == ms[..n - 1];
      DistinctLookupsAgree(ms, n - 1, t);
      NoEarlierMutation(ms, n - 1, ms[n - 1].indexBlob, t);
    }
  }

  lemma {:induction false} EmptyStoreRemovesNothing(ms: seq<SyncdMutation>, n: nat)
    requires n <= |ms| && SetsSliceable(ms[..n])
    ensures Removed(StoreOnly(map[]), ms, n) == []
  {
    if n > 0 {
      assert ms[..n][..n - 1] == ms[..n - 1];
      EmptyStoreRemovesNothing(ms, n - 1);
    }
  }

  lemma {:induction false} RepeatedSetRemovesSomething(ms: seq<SyncdMutation>, n: nat, i: nat, j: nat)
    requires i < j < n <= |ms| && SetsSliceable(ms[..n])
    requires forall k :: 0 <= k < n ==> ms[k].op == SET
    requires ms[i].indexBlob == ms[j].indexBlob
    ensures Removed(PatchThenStore(map[]), ms, n) != []
  {
    assert ms[..n][..n - 1] == ms[..n - 1];
    if j < n - 1 {
      RepeatedSetRemovesSomething(ms, n - 1, i, j);
    } else {
      EarlierSetIsFound(ms, n - 1, i, ms[j].indexBlob);
    }
  }

  lemma {:induction false} EarlierSetIsFound(ms: seq<SyncdMutation>, n: nat, i: nat, idx: Bytes)
    requires i < n <= |ms| && SetsSliceable(ms[..n])
    requires forall k :: 0 <= k < n ==> ms[k].op == SET
    requires ms[i].indexBlob == idx
    ensures PrevInPatch(ms, n, idx, map[]).Some?
  {
    assert ms[..n][..n - 1] == ms[..n - 1];
    if ms[n - 1].indexBlob != idx {
      EarlierSetIsFound(ms, n - 1, i, idx);
    }
  }

  /** The encoder subtracts what the decoder subtracts, whatever is stored, exactly when its indexes are distinct. */
  lemma {:induction false} SameRemovalsIffDistinct(ms: seq<SyncdMutation>)
    requires SetsSliceable(ms[..|ms|]) && forall i :: 0 <= i < |ms| ==> ms[i].op == SET
    ensures (forall t: Table :: Removed(StoreOnly(t), ms, |ms|) == Removed(PatchThenStore(t), ms, |ms|)) <==> DistinctIndexes(ms)
  {
    if DistinctIndexes(ms) {
      forall t: Table ensures Removed(StoreOnly(t), ms, |ms|) == Removed(PatchThenStore(t), ms, |ms|) {
        DistinctLookupsAgree(ms, |ms|, t);
      }
    } else {
      var i, j :| 0 <= i < j < |ms| && ms[i].indexBlob == ms[j].indexBlob;
      var empty: Table := map[];
      EmptyStoreRemovesNothing(ms, |ms|);
      RepeatedSetRemovesSomething(ms, |ms|, i, j);
      assert Removed(StoreOnly(empty), ms, |ms|) != Removed(PatchThenStore(empty), ms, |ms|);
    }
  }

  // ---------- what the encoder builds, the decoder accepts ----------

  lemma {:induction false} EncodedDecodes(env: Env, keys: Keys, keyId: Bytes, info: MutationInfo, timestamp: int, iv: IV, v: uint64)
    requires RoundTrips(env) && env.keyStore(keyId) == Some(keys)
    ensures var m := EncodeMutation(env, keys, keyId, info, timestamp, iv);
            DecodeMutation(env, m, true, v) ==
            Ok(Mutation(keyId, SET, env.stamp(info.value, timestamp), info.version, info.index, m.indexBlob, ValueMac(m), v))
  {
  }

  /** What the caller asked for, as the decoder reports it. */
  ghost predicate Reports(env: Env, ds: seq<Mutation>, infos: seq<MutationInfo>, timestamp: int) {
    && |ds| == |infos|
    && forall i :: 0 <= i < |ds| ==>
         && ds[i].op == SET && ds[i].index == infos[i].index
         && ds[i].version == infos[i].version && ds[i].action == env.stamp(infos[i].value, timestamp)
  }

  lemma {:induction false} EncodedAllDecode(env: Env, keys: Keys, keyId: Bytes, infos: seq<MutationInfo>, timestamp: int, ivs: seq<IV>, v: uint64)
    requires |ivs| == |infos|
    requires RoundTrips(env) && env.keyStore(keyId) == Some(keys)
    ensures var r := DecodeAll(env, EncodeMutations(env, keys, keyId, infos, timestamp, ivs), true, v);
            r.Ok? && Reports(env, r.value, infos, timestamp)
  {
    if infos != [] {
      var n := |infos| - 1;
      var front := EncodeMutations(env, keys, keyId, infos[..n], timestamp, ivs[..n]);
      EncodedAllDecode(env, keys, keyId, infos[..n], timestamp, ivs[..n], v);
      EncodedDecodes(env, keys, keyId, infos[n], timestamp, ivs[n], v);
      DecodeAllSnoc(env, front, EncodeMutation(env, keys, keyId, infos[n], timestamp, ivs[n]), true, v);
    }
  }

  /**
   A patch with distinct index MACs, stamped with the next version, passes every check of the decoder from the
   state it was built on, reaches the hash and version the encoder signed, and decodes to what was asked for, in order.
   */
  lemma {:induction false} EncoderAgreesWithDecoder(env: Env, name: Bytes, rows: Rows, keyId: Bytes, state: HashState,
                                 infos: seq<MutationInfo>, timestamp: int, ivs: seq<IV>, patch: SyncdPatch)
    returns (s: HashState, ds: seq<Mutation>)
    requires |ivs| == |infos| && RoundTrips(env)
    requires EncodeSpec(env, name, rows, keyId, state, infos, timestamp, ivs) == Ok(patch)
    requires DistinctIndexes(patch.mutations)
    ensures SetsSliceable(patch.mutations) && s == EncodedState(env, rows, state, patch.mutations)
    ensures ValidatePatchSpec(env, name, rows, patch.(version := s.version), state, true) == Ok(s)
    ensures DecodeAll(env, patch.mutations, true, s.version) == Ok(ds) && Reports(env, ds, infos, timestamp)
  {
    var keys := env.keyStore(keyId).value;
    var ms := patch.mutations;
    s := EncodedState(env, rows, state, ms);
    assert ms[..|ms|] == ms;
    DistinctLookupsAgree(ms, |ms|, Live(rows));
    assert NewState(env, rows, patch.(version := s.version), state) == s;
    EncodedAllDecode(env, keys, keyId, infos, timestamp, ivs, s.version);
    ds := DecodeAll(env, ms, true, s.version).value;
  }

  /**
   Whatever the encoder built, distinct indexes or not: the decoder accepts its signature exactly if it computes the same
   hash, and reports a mismatching hash otherwise, as long as the snapshot MAC does not collide on the two.
   */
  lemma {:induction false} EncodedValidatesIff(env: Env, name: Bytes, rows: Rows, keyId: Bytes, state: HashState,
                                 infos: seq<MutationInfo>, timestamp: int, ivs: seq<IV>, patch: SyncdPatch)
    requires |ivs| == |infos|
    requires EncodeSpec(env, name, rows, keyId, state, infos, timestamp, ivs) == Ok(patch)
    requires SetsSliceable(patch.mutations) &&
             var key := env.keyStore(keyId).value.snapshotMac;
             var signed := EncodedState(env, rows, state, patch.mutations);
             var computed := NewState(env, rows, patch.(version := signed.version), state);
             SnapshotMac(env, computed, name, key) == SnapshotMac(env, signed, name, key) ==> computed == signed
    ensures var signed := EncodedState(env, rows, state, patch.mutations);
            var stamped := patch.(version := signed.version);
            var computed := NewState(env, rows, stamped, state);
            ValidatePatchSpec(env, name, rows, stamped, state, true) ==
            if computed.hash == signed.hash then Ok(signed) else Err(MismatchingLTHash)
  {
  }

  lemma {:induction false} VersionGrows(env: Env, rows: Rows, state: HashState, ms: seq<SyncdMutation>)
    requires SetsSliceable(ms) && state.version + 1 < 0x1_0000_0000_0000_0000
    ensures EncodedState(env, rows, state, ms).version == state.version + 1
  {
  }

  /** The decoder accepts the patch, moves to `s` with the mutations `ds`, and stores exactly what it says. */
  ghost predicate AcceptedAndStored(env: Env, name: Bytes, c: Collection, patch: SyncdPatch, s: HashState, ds: seq<Mutation>) {
    var a := ApplyPatch(env, name, c, StateOf(c), patch, true);
    && a.result == Ok(Applied(s, ds)) && Consistent(env.expand, a.coll)
    && SetsSliceable(patch.mutations) && Live(a.coll.rows) == ApplyAll(Live(c.rows), patch.mutations)
  }

  lemma {:induction false} DistinctPatchIsStored(env: Env, name: Bytes, c: Collection, patch: SyncdPatch, s: HashState, ds: seq<Mutation>)
    requires Consistent(env.expand, c) && StateOf(c).version < patch.version && DistinctIndexes(patch.mutations)
    requires ValidatePatchSpec(env, name, c.rows, patch, StateOf(c), true) == Ok(s)
    requires DecodeAll(env, patch.mutations, true, s.version) == Ok(ds)
    ensures AcceptedAndStored(env, name, c, patch, s, ds)
  {
    AcceptedPatch(env, name, c, StateOf(c), patch, true, s, ds);
    PatchPreservesConsistency(env, name, c, patch);
    forall k ensures PendingSets(patch.mutations, k) <= 1 {
      DistinctPending(patch.mutations, k);
    }
  }

  /** From a consistent collection the round trip also stores exactly the requested values. */
  lemma {:induction false} EncodedPatchIsStored(env: Env, name: Bytes, c: Collection, keyId: Bytes, infos: seq<MutationInfo>, timestamp: int,
                             ivs: seq<IV>, patch: SyncdPatch) returns (s: HashState, ds: seq<Mutation>)
    requires |ivs| == |infos| && RoundTrips(env) && Consistent(env.expand, c)
    requires StateOf(c).version + 1 < 0x1_0000_0000_0000_0000
    requires EncodeSpec(env, name, c.rows, keyId, StateOf(c), infos, timestamp, ivs) == Ok(patch)
    requires DistinctIndexes(patch.mutations)
    ensures SetsSliceable(patch.mutations) && s == EncodedState(env, c.rows, StateOf(c), patch.mutations)
    ensures Reports(env, ds, infos, timestamp)
    ensures AcceptedAndStored(env, name, c, patch.(version := s.version), s, ds)
  {
    s, ds := EncoderAgreesWithDecoder(env, name, c.rows, keyId, StateOf(c), infos, timestamp, ivs, patch);
    VersionGrows(env, c.rows, StateOf(c), patch.mutations);
    DistinctPatchIsStored(env, name, c, patch.(version := s.version), s, ds);
  }
}
