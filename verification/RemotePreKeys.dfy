/**
 The adapter that serves prekey uploads from a remote key store (remotePreKeyStore in remote_signal.go).
 The remote's answers are arguments of each operation; the calls made to it come back as a list.
 */
module RemotePreKeys {
  import opened Prelude

  const MAX_BATCH := 812
  const MAX_KEY_ID := 0xFFFFFF

  // ---------- keys that cross the boundary ----------

  /** keys.PreKey: mutable, shared by reference, with optional parts. */
  class PreKey {
    var keyId: nat
    var pub: Option<Bytes>
    var hasPriv: bool
    var hasSignature: bool

    constructor (keyId: nat, pub: Bytes)
      ensures this.keyId == keyId && this.pub == Some(pub) && !hasPriv && !hasSignature
    {
      this.keyId, this.pub, hasPriv, hasSignature := keyId, Some(pub), false, false;
    }

    /** Public material only: a nonzero public key, an ID of 24 bits, nothing private or signed. */
    predicate PublicOnly()
      reads this
    {
      && pub.Some? && pub.value != seq(32, _ => 0) && !hasPriv && !hasSignature
      && 0 < keyId <= MAX_KEY_ID
    }
  }

  predicate Distinct(ids: seq<nat>) {
    forall i, j :: 0 <= i < j < |ids| ==> ids[i] != ids[j]
  }

  ghost predicate Acceptable(input: seq<PreKey?>)
    reads set k | k in input
  {
    && (forall i :: 0 <= i < |input| ==> input[i] != null && input[i].PublicOnly())
    && forall i, j :: 0 <= i < j < |input| && input[i] != null && input[j] != null ==> input[i].keyId != input[j].keyId
  }

  ghost function IdsOf(keys: seq<PreKey?>): (r: seq<nat>)
    reads set k | k in keys
    ensures |r| == |keys|
  {
    if keys == [] then []
    else
      var k := keys[|keys| - 1];
      IdsOf(keys[..|keys| - 1]) + [if k == null then 0 else k.keyId]
  }

  lemma {:induction false} IdsDetermined(keys: seq<PreKey?>, ids: seq<nat>)
    requires |ids| == |keys| && forall i :: 0 <= i < |keys| ==> keys[i] != null && ids[i] == keys[i].keyId
    ensures IdsOf(keys) == ids
  {
    if keys != [] {
      IdsDetermined(keys[..|keys| - 1], ids[..|keys| - 1]);
    }
  }

  /** copyRemotePreKeys: all or nothing; the copies are new objects, so nobody else can edit them. */
  method CopyRemotePreKeys(input: seq<PreKey?>) returns (ok: bool, public: seq<PreKey>, ids: seq<nat>)
    ensures ok <==> Acceptable(input)
    ensures ok ==> |public| == |ids| == |input| && Distinct(ids) && ids == IdsOf(input)
    ensures ok ==> forall i :: 0 <= i < |input| ==>
              && fresh(public[i]) && input[i] != null && ids[i] == input[i].keyId == public[i].keyId && 0 < ids[i] <= MAX_KEY_ID
              && public[i].pub == input[i].pub && !public[i].hasPriv && !public[i].hasSignature
  {
    public, ids := [], [];
    var seen: set<nat> := {};
    for n := 0 to |input|
      invariant |public| == |ids| == n
      invariant forall i :: 0 <= i < n ==>
                  && fresh(public[i]) && input[i] != null && input[i].PublicOnly() && ids[i] == input[i].keyId == public[i].keyId
                  && public[i].pub == input[i].pub && !public[i].hasPriv && !public[i].hasSignature
      invariant Distinct(ids) && seen == set i | 0 <= i < n :: ids[i]
    {
      var key := input[n];
      if key == null || !key.PublicOnly() || key.keyId in seen {
        return false, [], [];
      }
      var copy := new PreKey(key.keyId, key.pub.value);
      public, ids, seen := public + [copy], ids + [key.keyId], seen + {key.keyId};
    }
    IdsDetermined(input, ids);
    ok := true;
  }

  predicate LowerHex(c: char) { '0' <= c <= '9' || 'a' <= c <= 'f' }

  predicate ValidBatchId(id: string) { |id| == 32 && forall i :: 0 <= i < |id| ==> LowerHex(id[i]) }

  method ValidRemotePreKeyBatchId(id: string) returns (ok: bool)
    ensures ok == ValidBatchId(id)
  {
    if |id| != 32 {
      return false;
    }
    for i := 0 to |id|
      invariant forall k :: 0 <= k < i ==> LowerHex(id[k])
    {
      if !LowerHex(id[i]) {
        return false;
      }
    }
    ok := true;
  }

  // ---------- the adapter ----------

  /** batchID, ids and awaitingACK. */
  datatype Adapter = Adapter(batchId: string, ids: seq<nat>, awaiting: bool)

  const FRESH_ADAPTER := Adapter("", [], false)

  /** Calls to the remote, in order, with whether they succeeded from the adapter's point of view. */
  datatype Call =
    | PrepareCall(count: nat)
    | AckCall(batchId: string, ids: seq<nat>, ok: bool)
    | GenerateCall
    | MarkCall(ids: seq<nat>)

  /** The ids of an acceptable public batch, or nothing. */
  datatype Prepared = NoBatch | Batch(batchId: string, ids: seq<nat>)

  predicate UsableBatch(p: Prepared) {
    p.Batch? && ValidBatchId(p.batchId) && 0 < |p.ids| <= MAX_BATCH && Distinct(p.ids)
  }

  datatype Reply = Reply(adapter: Adapter, calls: seq<Call>, ids: Option<seq<nat>>)

  /** GetOrGenPreKeys: an attempted acknowledgement is settled first. */
  function GetSpec(a: Adapter, count: nat, ackOk: bool, prepared: Prepared): Reply {
    if count == 0 || count > MAX_BATCH then Reply(a, [], None)
    else if a.awaiting && !ackOk then Reply(a, [AckCall(a.batchId, a.ids, false)], None)
    else
      var settled := if a.awaiting then FRESH_ADAPTER else a;
      var calls := (if a.awaiting then [AckCall(a.batchId, a.ids, true)] else []) + [PrepareCall(count)];
      if UsableBatch(prepared) then Reply(Adapter(prepared.batchId, prepared.ids, false), calls, Some(prepared.ids))
      else Reply(settled, calls, None)
  }

  /** MarkPreKeysAsUploaded: only for the literal last ID of the captured batch. */
  function MarkSpec(a: Adapter, upTo: nat, ackOk: bool): Reply {
    if a.ids == [] || upTo != a.ids[|a.ids| - 1] then Reply(a, [], None)
    else if ackOk then Reply(FRESH_ADAPTER, [AckCall(a.batchId, a.ids, true)], Some(a.ids))
    else Reply(a.(awaiting := true), [AckCall(a.batchId, a.ids, false)], None)
  }

  /** GenOnePreKey: refuses a key of the captured batch, and marks exactly the new one. */
  function GenSpec(a: Adapter, generated: Prepared, markOk: bool): Reply {
    if !generated.Batch? || |generated.ids| != 1 || generated.ids[0] in a.ids then Reply(a, [GenerateCall], None)
    else Reply(a, [GenerateCall, MarkCall(generated.ids)], if markOk then Some(generated.ids) else None)
  }

  /** What a remote's list of key objects amounts to. */
  ghost function Accepted(batchId: string, keys: seq<PreKey?>): Prepared
    reads set k | k in keys
  {
    if Acceptable(keys) then Batch(batchId, IdsOf(keys)) else NoBatch
  }

  class RemotePreKeyStore {
    var batchId: string
    var ids: seq<nat>
    var awaitingAck: bool

    constructor ()
      ensures State() == FRESH_ADAPTER
    {
      batchId, ids, awaitingAck := "", [], false;
    }

    ghost function State(): Adapter
      reads this
    {
      Adapter(batchId, ids, awaitingAck)
    }

    method GetOrGenPreKeys(count: nat, ackOk: bool, answered: bool, preparedId: string, preparedKeys: seq<PreKey?>)
      returns (public: Option<seq<PreKey>>, calls: seq<Call>)
      modifies this
      ensures var r := GetSpec(old(State()), count, ackOk, old(if answered then Accepted(preparedId, preparedKeys) else NoBatch));
              && State() == r.adapter && calls == r.calls && (public.Some? <==> r.ids.Some?)
              && (public.Some? ==> |public.value| == |ids| && forall i :: 0 <= i < |ids| ==> fresh(public.value[i]) && public.value[i].keyId == ids[i])
    {
      calls := [];
      if count == 0 || count > MAX_BATCH {
        return None, [];
      }
      if awaitingAck {
        var acked, call := AcknowledgeLocked(ackOk);
        calls := [call];
        if !acked {
          return None, calls;
        }
      }
      calls := calls + [PrepareCall(count)];
      var validId := ValidRemotePreKeyBatchId(preparedId);
      if !answered || !validId || |preparedKeys| == 0 || |preparedKeys| > MAX_BATCH {
        return None, calls;
      }
      var ok, copies, snapshot := CopyRemotePreKeys(preparedKeys);
      if !ok {
        return None, calls;
      }
      batchId, ids := preparedId, snapshot;
      public := Some(copies);
    }

    method MarkPreKeysAsUploaded(upTo: nat, ackOk: bool) returns (ok: bool, calls: seq<Call>)
      modifies this
      ensures var r := MarkSpec(old(State()), upTo, ackOk); State() == r.adapter && calls == r.calls && ok == r.ids.Some?
    {
      if |ids| == 0 || upTo != ids[|ids| - 1] {
        return false, [];
      }
      awaitingAck := true;
      var call;
      ok, call := AcknowledgeLocked(ackOk);
      calls := [call];
    }

    method AcknowledgeLocked(ackOk: bool) returns (ok: bool, call: Call)
      modifies this
      ensures call == AckCall(old(batchId), old(ids), ackOk) && ok == ackOk
      ensures State() == if ackOk then FRESH_ADAPTER else old(State())
    {
      call := AckCall(batchId, ids, ackOk);
      if ackOk {
        batchId, ids, awaitingAck := "", [], false;
      }
      ok := ackOk;
    }

    method GenOnePreKey(generatedKeys: seq<PreKey?>, markOk: bool) returns (key: Option<PreKey>, calls: seq<Call>)
      ensures var r := GenSpec(State(), Accepted("", generatedKeys), markOk); calls == r.calls && (key.Some? <==> r.ids.Some?)
      ensures key.Some? ==> fresh(key.value) && key.value.keyId !in ids && MarkCall([key.value.keyId]) in calls
    {
      calls := [GenerateCall];
      if |generatedKeys| != 1 {
        return None, calls;
      }
      var ok, public, snapshot := CopyRemotePreKeys(generatedKeys);
      if !ok {
        return None, calls;
      }
      for i := 0 to |ids|
        invariant forall k :: 0 <= k < i ==> ids[k] != snapshot[0]
      {
        if ids[i] == snapshot[0] {
          return None, calls;
        }
      }
      calls := calls + [MarkCall(snapshot)];
      assert snapshot == [snapshot[0]];
      if !markOk {
        return None, calls;
      }
      key := Some(public[0]);
    }
  }

  const WANTED_PREKEY_COUNT := 50

  /**
   uploadPreKeys against this adapter: skipped after a recent upload if the server still has enough keys; otherwise
   one batch is fetched, sent, and, only if the server took it, acknowledged as a whole.
   */
  method UploadPreKeys(store: RemotePreKeyStore, initialUpload: bool, uploadedRecently: bool, serverCount: int,
                       ackOk: bool, answered: bool, preparedId: string, preparedKeys: seq<PreKey?>, iqOk: bool, markAckOk: bool)
    returns (done: bool, calls: seq<Call>)
    modifies store
    ensures var got := GetSpec(old(store.State()), if initialUpload then MAX_BATCH else WANTED_PREKEY_COUNT, ackOk,
                               old(if answered then Accepted(preparedId, preparedKeys) else NoBatch));
            if uploadedRecently && serverCount >= WANTED_PREKEY_COUNT then !done && calls == [] && store.State() == old(store.State())
            else if got.ids.None? || !iqOk then !done && calls == got.calls && store.State() == got.adapter
            else
              && done == markAckOk && calls == got.calls + [AckCall(got.adapter.batchId, got.ids.value, markAckOk)]
              && store.State() == if markAckOk then FRESH_ADAPTER else got.adapter.(awaiting := true)
  {
    if uploadedRecently && serverCount >= WANTED_PREKEY_COUNT {
      return false, [];
    }
    var wantedCount := if initialUpload then MAX_BATCH else WANTED_PREKEY_COUNT;
    var keys;
    keys, calls := store.GetOrGenPreKeys(wantedCount, ackOk, answered, preparedId, preparedKeys);
    if keys.None? || !iqOk {
      return false, calls;
    }
    var last := keys.value[|keys.value| - 1].keyId;
    var ackCalls;
    done, ackCalls := store.MarkPreKeysAsUploaded(last, markAckOk);
    calls := calls + ackCalls;
  }
}
