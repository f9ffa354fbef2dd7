/**
 The data of an app-state collection: mutations, patches and snapshots as the server
 sends them, the hash state, and the authentication codes of appstate/hash.go.
 */
module AppStateModel {
  import opened Prelude
  import opened LtHash

  const MAC_SIZE := 32
  const IV_SIZE := 16

  type Digest256 = s: Bytes | |s| == 32 witness seq(32, _ => 0)
  type Digest512 = s: Bytes | |s| == 64 witness seq(64, _ => 0)
  type uint64 = x: int | 0 <= x < 0x1_0000_0000_0000_0000

  datatype Operation = SET | REMOVE

  /** waServerSync.SyncdMutation: `valueBlob` is IV, ciphertext and a trailing 32-byte content MAC. */
  datatype SyncdMutation = SyncdMutation(op: Operation, indexBlob: Bytes, valueBlob: Bytes, keyId: Bytes)

  datatype SyncdRecord = SyncdRecord(indexBlob: Bytes, valueBlob: Bytes, keyId: Bytes)

  datatype SyncdPatch = SyncdPatch(
    version: uint64, mutations: seq<SyncdMutation>, snapshotMac: Bytes, patchMac: Bytes, keyId: Bytes)

  datatype SyncdSnapshot = SyncdSnapshot(version: uint64, records: seq<SyncdRecord>, mac: Bytes, keyId: Bytes)

  datatype PatchList = PatchList(name: Bytes, hasMore: bool, snapshot: Option<SyncdSnapshot>, patches: seq<SyncdPatch>)

  datatype HashState = HashState(version: uint64, hash: Hash)

  function EmptyState(): HashState { HashState(0, Zero()) }

  datatype Failure =
    | KeyNotFound
    | MismatchingLTHash
    | MismatchingPatchMAC
    | MismatchingContentMAC
    | MismatchingIndexMAC
    | Undecryptable
    | Unmarshalable
    | BadIndexJSON
    | SliceBounds           // a slice expression out of range: the call panics
    | ConstraintViolation   // the database refused the rows
    | SavedVersionZero
    | FetchFailed
    | UnexpectedSnapshot

  datatype Keys = Keys(index: Bytes, valueEncryption: Bytes, valueMac: Bytes, snapshotMac: Bytes, patchMac: Bytes)

  /** waSyncAction.SyncActionData; the action value itself stays an opaque byte string. */
  datatype ActionData = ActionData(index: Bytes, value: Bytes, version: int)

  /** appstate.Mutation: what a decoded mutation hands to the rest of the client. */
  datatype Mutation = Mutation(
    keyId: Bytes, op: Operation, action: Bytes, version: int, index: seq<string>,
    indexMac: Bytes, valueMac: Bytes, patchVersion: uint64)

  /** The libraries the package calls, as functions of their inputs. */
  datatype Env = Env(
    expand: Expansion,
    stamp: (Bytes, int) -> Bytes,
    hmac256: (Bytes, Bytes) -> Digest256,
    hmac512: (Bytes, Bytes) -> Digest512,
    keyStore: Bytes -> Option<Keys>,
    encrypt: (Bytes, Bytes, Bytes) -> Bytes,
    decrypt: (Bytes, Bytes, Bytes) -> Option<Bytes>,
    marshalAction: ActionData -> Bytes,
    unmarshalAction: Bytes -> Option<ActionData>,
    marshalIndex: seq<string> -> Bytes,
    unmarshalIndex: Bytes -> Option<seq<string>>)

  /** value[len(value)-32:] */
  function ValueMac(m: SyncdMutation): (r: Bytes)
    requires |m.valueBlob| >= MAC_SIZE
    ensures |r| == MAC_SIZE
  {
    m.valueBlob[|m.valueBlob| - MAC_SIZE..]
  }

  predicate Sliceable(m: SyncdMutation) { |m.valueBlob| >= MAC_SIZE }

  /** Every SET carries a value MAC: what updateHash slices without checking. */
  predicate SetsSliceable(ms: seq<SyncdMutation>) {
    forall i :: 0 <= i < |ms| && ms[i].op == SET ==> Sliceable(ms[i])
  }

  predicate AllSliceable(ms: seq<SyncdMutation>) {
    forall i :: 0 <= i < |ms| ==> Sliceable(ms[i])
  }

  // ---------- authentication codes ----------

  /** The n low bytes of v, most significant first. */
  function BigEndian(v: nat, n: nat): (r: Bytes)
    ensures |r| == n
  {
    if n == 0 then [] else BigEndian(v / 256, n - 1) + [v % 256]
  }

  function SnapshotInput(s: HashState, name: Bytes): Bytes { s.hash + BigEndian(s.version, 8) + name }

  function SnapshotMac(env: Env, s: HashState, name: Bytes, key: Bytes): Bytes {
    env.hmac256(key, SnapshotInput(s, name))
  }

  function ConcatValueMacs(ms: seq<SyncdMutation>): Bytes
    requires AllSliceable(ms)
  {
    if ms == [] then [] else ConcatValueMacs(ms[..|ms| - 1]) + ValueMac(ms[|ms| - 1])
  }

  function PatchInput(snapshotMac: Bytes, ms: seq<SyncdMutation>, name: Bytes, version: uint64): Bytes
    requires AllSliceable(ms)
  {
    snapshotMac + ConcatValueMacs(ms) + BigEndian(version, 8) + name
  }

  function PatchMac(env: Env, snapshotMac: Bytes, ms: seq<SyncdMutation>, name: Bytes, key: Bytes, version: uint64): Bytes
    requires AllSliceable(ms)
  {
    env.hmac256(key, PatchInput(snapshotMac, ms, name, version))
  }

  /** generatePatchMAC: slices the value MAC of every mutation, REMOVEs included. */
  method GeneratePatchMac(env: Env, snapshotMac: Bytes, ms: seq<SyncdMutation>, name: Bytes, key: Bytes, version: uint64)
    returns (r: Result<Bytes, Failure>)
    ensures r == if AllSliceable(ms) then Ok(PatchMac(env, snapshotMac, ms, name, key, version)) else Err(SliceBounds)
  {
    var data := snapshotMac;
    for i := 0 to |ms|
      invariant AllSliceable(ms[..i])
      invariant data == snapshotMac + ConcatValueMacs(ms[..i])
    {
      if |ms[i].valueBlob| < MAC_SIZE {
        return Err(SliceBounds);
      }
      assert ms[..i + 1][..i] == ms[..i];
      data := data + ValueMac(ms[i]);
    }
    assert ms[..|ms|] == ms;
    r := Ok(env.hmac256(key, data + BigEndian(version, 8) + name));
  }

  /** The operation byte is the enum value plus one; the length covers it and the key id. */
  function ContentInput(op: Operation, data: Bytes, keyId: Bytes): Bytes {
    [if op == SET then 1 else 2] + keyId + data + BigEndian(|keyId| + 1, 8)
  }

  /** generateContentMAC */
  function ContentMac(env: Env, op: Operation, data: Bytes, keyId: Bytes, key: Bytes): (r: Bytes)
    ensures |r| == MAC_SIZE
  {
    env.hmac512(key, ContentInput(op, data, keyId))[..MAC_SIZE]
  }
}
