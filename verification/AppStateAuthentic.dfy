/**
 What the four MACs of app state sync (appstate/hash.go, appstate/decode.go) are over, and exactly which patches the
 decoder accepts.
 */
module AppStateAuthentic {
  import opened Prelude
  import opened LtHash
  import opened AppStateModel
  import opened AppStateTable
  import opened AppStateStore
  import opened AppStateDecode
  import opened AppStateLaws

  // ---------- no two messages share a MAC input ----------

  function FromBigEndian(b: Bytes): nat {
    if b == [] then 0
    else
      var low: int := b[|b| - 1];
      FromBigEndian(b[..|b| - 1]) * 256 + low
  }

  function Pow256(n: nat): nat { if n == 0 then 1 else 256 * Pow256(n - 1) }

  lemma {:induction false} BigEndianReads(v: nat, n: nat)
    requires v < Pow256(n)
    ensures FromBigEndian(BigEndian(v, n)) == v
  {
    if n > 0 {
      BigEndianReads(v / 256, n - 1);
      assert BigEndian(v, n)[..n - 1] == BigEndian(v / 256, n - 1);
    }
  }

  lemma {:induction false} EightBytes()
    ensures Pow256(8) == 0x1_0000_0000_0000_0000
  {
    assert Pow256(4) == 0x1_0000_0000;
    assert Pow256(6) == 256 * 256 * Pow256(4);
  }

  lemma {:induction false} BigEndianIsInjective(a: nat, b: nat)
    requires a < 0x1_0000_0000_0000_0000 && b < 0x1_0000_0000_0000_0000 && BigEndian(a, 8) == BigEndian(b, 8)
    ensures a == b
  {
    EightBytes();
    BigEndianReads(a, 8);
    BigEndianReads(b, 8);
  }

  lemma {:induction false} SplitAt(a: Bytes, b: Bytes, c: Bytes, d: Bytes)
    requires a + b == c + d && (|a| == |c| || |b| == |d|)
    ensures a == c && b == d
  {
    assert |a + b| == |a| + |b| && |c + d| == |c| + |d|;
    assert (a + b)[..|a|] == a && (c + d)[..|c|] == c;
    assert (a + b)[|a|..] == b && (c + d)[|c|..] == d;
  }

  /** Operation, key id and content can be read off what a content MAC is computed over. */
  lemma {:induction false} ContentInputIsInjective(op: Operation, data: Bytes, keyId: Bytes, op': Operation, data': Bytes, keyId': Bytes)
    requires |keyId| + 1 < 0x1_0000_0000_0000_0000 && |keyId'| + 1 < 0x1_0000_0000_0000_0000
    requires ContentInput(op, data, keyId) == ContentInput(op', data', keyId')
    ensures op == op' && data == data' && keyId == keyId'
  {
    var o, o': Bytes := [if op == SET then 1 else 2], [if op' == SET then 1 else 2];
    SplitAt(o + keyId + data, BigEndian(|keyId| + 1, 8), o' + keyId' + data', BigEndian(|keyId'| + 1, 8));
    BigEndianIsInjective(|keyId| + 1, |keyId'| + 1);
    SplitAt(o + keyId, data, o' + keyId', data');
    SplitAt(o, keyId, o', keyId');
    assert o[0] == o'[0];
  }

  /** Hash, version and collection name can be read off what a snapshot MAC is computed over. */
  lemma {:induction false} SnapshotInputIsInjective(s: HashState, name: Bytes, s': HashState, name': Bytes)
    requires SnapshotInput(s, name) == SnapshotInput(s', name')
    ensures s == s' && name == name'
  {
    SplitAt(s.hash + BigEndian(s.version, 8), name, s'.hash + BigEndian(s'.version, 8), name');
    SplitAt(s.hash, BigEndian(s.version, 8), s'.hash, BigEndian(s'.version, 8));
    BigEndianIsInjective(s.version, s'.version);
  }

  lemma {:induction false} ConcatLength(ms: seq<SyncdMutation>)
    requires AllSliceable(ms)
    ensures |ConcatValueMacs(ms)| == MAC_SIZE * |ms|
  {
    if ms != [] {
      ConcatLength(ms[..|ms| - 1]);
    }
  }

  lemma {:induction false} ConcatIsInjective(ms: seq<SyncdMutation>, ms': seq<SyncdMutation>)
    requires AllSliceable(ms) && AllSliceable(ms') && ConcatValueMacs(ms) == ConcatValueMacs(ms')
    ensures |ms| == |ms'| && forall i :: 0 <= i < |ms| ==> ValueMac(ms[i]) == ValueMac(ms'[i])
  {
    ConcatLength(ms);
    ConcatLength(ms');
    if ms != [] {
      var n := |ms| - 1;
      SplitAt(ConcatValueMacs(ms[..n]), ValueMac(ms[n]), ConcatValueMacs(ms'[..n]), ValueMac(ms'[n]));
      ConcatIsInjective(ms[..n], ms'[..n]);
      forall i | 0 <= i < |ms|
        ensures ValueMac(ms[i]) == ValueMac(ms'[i])
      {
        if i < n {
          assert ms[..n][i] == ms[i] && ms'[..n][i] == ms'[i];
        }
      }
    }
  }

  /** Within one collection, snapshot MAC, value MACs and version can be read off what a patch MAC is computed over. */
  lemma {:induction false} PatchInputIsInjective(mac: Bytes, ms: seq<SyncdMutation>, version: uint64,
                                                 mac': Bytes, ms': seq<SyncdMutation>, version': uint64, name: Bytes)
    requires AllSliceable(ms) && AllSliceable(ms') && |mac| == |mac'|
    requires PatchInput(mac, ms, name, version) == PatchInput(mac', ms', name, version')
    ensures mac == mac' && version == version' && |ms| == |ms'|
    ensures forall i :: 0 <= i < |ms| ==> ValueMac(ms[i]) == ValueMac(ms'[i])
  {
    var c, c' := ConcatValueMacs(ms), ConcatValueMacs(ms');
    SplitAt(mac + c + BigEndian(version, 8), name, mac' + c' + BigEndian(version', 8), name);
    SplitAt(mac + c, BigEndian(version, 8), mac' + c', BigEndian(version', 8));
    SplitAt(mac, c, mac', c');
    BigEndianIsInjective(version, version');
    ConcatIsInjective(ms, ms');
  }

  // ---------- exactly what is accepted ----------

  function Content(m: SyncdMutation): Bytes
    requires Sliceable(m)
  {
    m.valueBlob[..|m.valueBlob| - MAC_SIZE]
  }

  /** The action hidden in a mutation, if it opens under the keys. */
  function Opened(env: Env, keys: Keys, m: SyncdMutation): Option<ActionData> {
    if !Sliceable(m) || |Content(m)| < IV_SIZE then None
    else
      match env.decrypt(keys.valueEncryption, Content(m)[..IV_SIZE], Content(m)[IV_SIZE..])
      case None => None
      case Some(plaintext) => env.unmarshalAction(plaintext)
  }

  /** Both MACs of a mutation are right for what it contains. */
  predicate Authentic(env: Env, m: SyncdMutation) {
    env.keyStore(m.keyId).Some? && Sliceable(m) &&
    var keys := env.keyStore(m.keyId).value;
    && ValueMac(m) == ContentMac(env, m.op, Content(m), m.keyId, keys.valueMac)
    && Opened(env, keys, m).Some?
    && m.indexBlob == env.hmac256(keys.index, Opened(env, keys, m).value.index)
    && env.unmarshalIndex(Opened(env, keys, m).value.index).Some?
  }

  lemma {:induction false} DecodesIff(env: Env, m: SyncdMutation, v: uint64)
    ensures DecodeMutation(env, m, true, v).Ok? <==> Authentic(env, m)
  {
  }

  lemma {:induction false} AllDecodeIff(env: Env, ms: seq<SyncdMutation>, v: uint64)
    ensures DecodeAll(env, ms, true, v).Ok? <==> forall i :: 0 <= i < |ms| ==> Authentic(env, ms[i])
  {
    if ms != [] {
      var n := |ms| - 1;
      AllDecodeIff(env, ms[..n], v);
      DecodesIff(env, ms[n], v);
      assert forall i :: 0 <= i < n ==> ms[..n][i] == ms[i];
    }
  }

  /** The patch is signed over the table it leads to: over the hash recomputed from that table, not the one kept. */
  ghost predicate Signed(env: Env, name: Bytes, t: Table, patch: SyncdPatch) {
    env.keyStore(patch.keyId).Some? && AllSliceable(patch.mutations) &&
    var keys := env.keyStore(patch.keyId).value;
    var after := HashState(patch.version, TableHash(env.expand, ApplyAll(t, patch.mutations)));
    && patch.snapshotMac == SnapshotMac(env, after, name, keys.snapshotMac)
    && patch.patchMac == PatchMac(env, patch.snapshotMac, patch.mutations, name, keys.patchMac, patch.version)
  }

  lemma {:induction false} ValidatesIff(env: Env, name: Bytes, c: Collection, patch: SyncdPatch)
    requires InStep(env.expand, c) && AllSliceable(patch.mutations)
    ensures ValidatePatchSpec(env, name, c.rows, patch, StateOf(c), true).Ok? <==> Signed(env, name, Live(c.rows), patch)
  {
    NewStateHash(env, c, patch);
  }

  /**
   From a collection in step, a patch of any version is accepted exactly if it is signed over the table it leads to, each
   of its mutations is authentic, it sets no index twice without a later REMOVE, and none of its rows is stored already.
   */
  lemma {:induction false} AcceptedIff(env: Env, name: Bytes, c: Collection, patch: SyncdPatch)
    requires InStep(env.expand, c)
    ensures ApplyPatch(env, name, c, StateOf(c), patch, true).result.Ok? <==>
            && Signed(env, name, Live(c.rows), patch)
            && (forall i :: 0 <= i < |patch.mutations| ==> Authentic(env, patch.mutations[i]))
            && SetsAtMostOnce(patch.mutations) && !Collides(c.rows, patch.version, patch.mutations)
  {
    AllDecodeIff(env, patch.mutations, patch.version);
    PatchRefusedIff(env, name, c, StateOf(c), patch);
    if ApplyPatch(env, name, c, StateOf(c), patch, true).result.Ok? {
      AcceptedIsRight(env, name, c, patch);
    } else if Signed(env, name, Live(c.rows), patch) {
      ValidatesIff(env, name, c, patch);
      if DecodeAll(env, patch.mutations, true, patch.version).Ok? {
        AcceptedPatch(env, name, c, StateOf(c), patch, true, ValidatePatchSpec(env, name, c.rows, patch, StateOf(c), true).value,
                      DecodeAll(env, patch.mutations, true, patch.version).value);
      }
    }
  }

  lemma {:induction false} AcceptedIsRight(env: Env, name: Bytes, c: Collection, patch: SyncdPatch)
    requires InStep(env.expand, c) && ApplyPatch(env, name, c, StateOf(c), patch, true).result.Ok?
    ensures Signed(env, name, Live(c.rows), patch) && DecodeAll(env, patch.mutations, true, patch.version).Ok?
    ensures SetsAtMostOnce(patch.mutations) && !Collides(c.rows, patch.version, patch.mutations)
  {
    ApplyPatchCases(env, name, c, StateOf(c), patch, true);
    DecodeAllElements(env, patch.mutations, true, patch.version);
    ValidatesIff(env, name, c, patch);
    StoreRefusedIff(env, c, NewState(env, c.rows, patch, StateOf(c)), patch.mutations);
  }
}
