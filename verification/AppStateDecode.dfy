/**
 Decoding patches and snapshots (appstate/decode.go): the specification of each step as a function
 of the stored collection, and the Processor whose loops compute it.
 */
module AppStateDecode {
  import opened Prelude
  import opened LtHash
  import opened AppStateModel
  import opened AppStateTable
  import opened AppStateStore

  // ---------- one mutation ----------

  function DecodeMutation(env: Env, m: SyncdMutation, validate: bool, patchVersion: uint64): (r: Result<Mutation, Failure>)
    ensures r.Err? ==> r.error != ConstraintViolation
  {
    match env.keyStore(m.keyId)
    case None => Err(KeyNotFound)
    case Some(keys) =>
      if !Sliceable(m) then Err(SliceBounds)
      else
        var content := m.valueBlob[..|m.valueBlob| - MAC_SIZE];
        if validate && ContentMac(env, m.op, content, m.keyId, keys.valueMac) != ValueMac(m) then Err(MismatchingContentMAC)
        else if |content| < IV_SIZE then Err(SliceBounds)
        else
          match env.decrypt(keys.valueEncryption, content[..IV_SIZE], content[IV_SIZE..])
          case None => Err(Undecryptable)
          case Some(plaintext) =>
            match env.unmarshalAction(plaintext)
            case None => Err(Unmarshalable)
            case Some(action) =>
              if validate && env.hmac256(keys.index, action.index) != m.indexBlob then Err(MismatchingIndexMAC)
              else
                match env.unmarshalIndex(action.index)
                case None => Err(BadIndexJSON)
                case Some(index) =>
                  Ok(Mutation(m.keyId, m.op, action.value, action.version, index, m.indexBlob, ValueMac(m), patchVersion))
  }

  /** A decoded mutation is well formed: its value MAC exists, and a checked index MAC is a SHA-256 digest. */
  lemma {:induction false} DecodedIsWellFormed(env: Env, m: SyncdMutation, validate: bool, v: uint64)
    requires DecodeMutation(env, m, validate, v).Ok?
    ensures Sliceable(m) && (validate ==> |m.indexBlob| == MAC_SIZE)
  {
  }

  function DecodeAll(env: Env, ms: seq<SyncdMutation>, validate: bool, v: uint64): (r: Result<seq<Mutation>, Failure>)
    ensures r.Err? ==> r.error != ConstraintViolation
  {
    if ms == [] then Ok([])
    else
      match DecodeAll(env, ms[..|ms| - 1], validate, v)
      case Err(e) => Err(e)
      case Ok(front) =>
        match DecodeMutation(env, ms[|ms| - 1], validate, v)
        case Err(e) => Err(e)
        case Ok(d) => Ok(front + [d])
  }

  lemma {:induction false} DecodeAllElements(env: Env, ms: seq<SyncdMutation>, validate: bool, v: uint64)
    requires DecodeAll(env, ms, validate, v).Ok?
    ensures |DecodeAll(env, ms, validate, v).value| == |ms|
    ensures forall i :: 0 <= i < |ms| ==> DecodeMutation(env, ms[i], validate, v) == Ok(DecodeAll(env, ms, validate, v).value[i])
    ensures AllSliceable(ms)
    ensures validate ==> forall i :: 0 <= i < |ms| ==> |ms[i].indexBlob| == MAC_SIZE
  {
    if ms != [] {
      DecodeAllElements(env, ms[..|ms| - 1], validate, v);
      DecodedIsWellFormed(env, ms[|ms| - 1], validate, v);
    }
  }

  lemma {:induction false} DecodeAllStep(env: Env, ms: seq<SyncdMutation>, i: nat, validate: bool, v: uint64)
    requires i < |ms| && DecodeAll(env, ms[..i], validate, v).Ok?
    ensures DecodeAll(env, ms[..i + 1], validate, v) ==
            match DecodeMutation(env, ms[i], validate, v)
            case Err(e) => Err(e)
            case Ok(d) => Ok(DecodeAll(env, ms[..i], validate, v).value + [d])
  {
    assert ms[..i + 1][..i] == ms[..i];
  }

  lemma {:induction false} DecodeAllSnoc(env: Env, front: seq<SyncdMutation>, m: SyncdMutation, validate: bool, v: uint64)
    requires DecodeAll(env, front, validate, v).Ok? && DecodeMutation(env, m, validate, v).Ok?
    ensures DecodeAll(env, front + [m], validate, v) ==
            Ok(DecodeAll(env, front, validate, v).value + [DecodeMutation(env, m, validate, v).value])
  {
  }

  lemma {:induction false} DecodeAllFailsOnPrefix(env: Env, ms: seq<SyncdMutation>, n: nat, validate: bool, v: uint64)
    requires n <= |ms| && DecodeAll(env, ms[..n], validate, v).Err?
    ensures DecodeAll(env, ms, validate, v) == DecodeAll(env, ms[..n], validate, v)
    decreases |ms|
  {
    if n == |ms| {
      assert ms[..n] == ms;
    } else {
      assert ms[..|ms| - 1][..n] == ms[..n];
      DecodeAllFailsOnPrefix(env, ms[..|ms| - 1], n, validate, v);
    }
  }

  // ---------- one patch ----------

  ghost function NewState(env: Env, rows: Rows, patch: SyncdPatch, cur: HashState): HashState
    requires SetsSliceable(patch.mutations)
  {
    HashState(patch.version, FullHash(env.expand, cur.hash, PatchThenStore(Live(rows)), patch.mutations))
  }

  function CheckSnapshotMac(env: Env, name: Bytes, state: HashState, keyId: Bytes, mac: Bytes): Result<Keys, Failure> {
    match env.keyStore(keyId)
    case None => Err(KeyNotFound)
    case Some(keys) =>
      if SnapshotMac(env, state, name, keys.snapshotMac) != mac then Err(MismatchingLTHash) else Ok(keys)
  }

  ghost function ValidatePatchSpec(env: Env, name: Bytes, rows: Rows, patch: SyncdPatch, cur: HashState, validate: bool)
    : Result<HashState, Failure>
  {
    if !SetsSliceable(patch.mutations) then Err(SliceBounds)
    else
      var s := NewState(env, rows, patch, cur);
      if !validate then Ok(s)
      else
        match CheckSnapshotMac(env, name, s, patch.keyId, patch.snapshotMac)
        case Err(e) => Err(e)
        case Ok(keys) =>
          if !AllSliceable(patch.mutations) then Err(SliceBounds)
          else if PatchMac(env, patch.snapshotMac, patch.mutations, name, keys.patchMac, patch.version) != patch.patchMac
          then Err(MismatchingPatchMAC)
          else Ok(s)
  }

  /** The collection after an attempt, and the new state with the decoded mutations if it succeeded. */
  datatype Attempt = Attempt(coll: Collection, result: Result<Applied, Failure>)

  datatype Applied = Applied(state: HashState, mutations: seq<Mutation>)

  ghost function ApplyPatch(env: Env, name: Bytes, c: Collection, cur: HashState, patch: SyncdPatch, validate: bool): Attempt {
    match ValidatePatchSpec(env, name, c.rows, patch, cur, validate)
    case Err(e) => Attempt(c, Err(e))
    case Ok(s) =>
      match DecodeAll(env, patch.mutations, validate, s.version)
      case Err(e) => Attempt(c, Err(e))
      case Ok(ds) =>
        var stored := StoreMacsSpec(c, s, OutputOf(patch.mutations));
        Attempt(stored.coll, if stored.error.Some? then Err(stored.error.value) else Ok(Applied(s, ds)))
  }

  /** What DecodePatches leaves in the store and returns. */
  datatype Outcome = Outcome(coll: Collection, state: HashState, mutations: seq<Mutation>, error: Option<Failure>)

  /** Only the last write can fail after something was written. */
  lemma {:induction false} ApplyPatchCases(env: Env, name: Bytes, c: Collection, cur: HashState, patch: SyncdPatch, validate: bool)
    ensures var a := ApplyPatch(env, name, c, cur, patch, validate);
            if a.result.Err? && a.result.error != ConstraintViolation then a.coll == c
            else
              && SetsSliceable(patch.mutations)
              && var s := NewState(env, c.rows, patch, cur);
                 var stored := StoreMacsSpec(c, s, OutputOf(patch.mutations));
                 && DecodeAll(env, patch.mutations, validate, s.version).Ok?
                 && a.coll == stored.coll
                 && (a.result.Err? ==> stored.error.Some?)
                 && (a.result.Ok? ==> stored.error.None? && a.result.value == Applied(s, DecodeAll(env, patch.mutations, validate, s.version).value))
  {
  }

  lemma {:induction false} AcceptedPatch(env: Env, name: Bytes, c: Collection, cur: HashState, patch: SyncdPatch, validate: bool, s: HashState, ds: seq<Mutation>)
    requires ValidatePatchSpec(env, name, c.rows, patch, cur, validate) == Ok(s)
    requires DecodeAll(env, patch.mutations, validate, s.version) == Ok(ds)
    ensures var a := ApplyPatch(env, name, c, cur, patch, validate);
            a.result == Ok(Applied(s, ds)) || a.result == Err(ConstraintViolation)
  {
  }

  ghost function ApplyPatches(env: Env, name: Bytes, c: Collection, cur: HashState, acc: seq<Mutation>,
                        patches: seq<SyncdPatch>, validate: bool): Outcome
    decreases |patches|
  {
    if patches == [] then Outcome(c, cur, acc, None)
    else
      var a := ApplyPatch(env, name, c, cur, patches[0], validate);
      match a.result
      case Err(e) => Outcome(a.coll, cur, acc, Some(e))
      case Ok(done) => ApplyPatches(env, name, a.coll, done.state, acc + done.mutations, patches[1..], validate)
  }

  // ---------- a snapshot ----------

  function SnapshotMutations(records: seq<SyncdRecord>): (r: seq<SyncdMutation>)
    ensures |r| == |records|
    ensures forall i :: 0 <= i < |r| ==> r[i].op == SET && r[i].indexBlob == records[i].indexBlob && r[i].valueBlob == records[i].valueBlob
  {
    seq(|records|, i requires 0 <= i < |records| => SyncdMutation(SET, records[i].indexBlob, records[i].valueBlob, records[i].keyId))
  }

  ghost function SnapshotState(env: Env, init: HashState, ss: SyncdSnapshot): HashState
    requires SetsSliceable(SnapshotMutations(ss.records))
  {
    HashState(ss.version, FullHash(env.expand, init.hash, Nowhere, SnapshotMutations(ss.records)))
  }

  /** decodeSnapshot: on every failure the returned state is already the snapshot's. */
  ghost function DecodeSnapshotSpec(env: Env, name: Bytes, c: Collection, init: HashState, ss: SyncdSnapshot, validate: bool): Outcome {
    var ms := SnapshotMutations(ss.records);
    if !SetsSliceable(ms) then Outcome(c, init, [], Some(SliceBounds))
    else
      var s := SnapshotState(env, init, ss);
      var checked := CheckSnapshotMac(env, name, s, ss.keyId, ss.mac);
      if validate && checked.Err? then Outcome(c, s, [], Some(checked.error))
      else
        match DecodeAll(env, ms, validate, s.version)
        case Err(e) => Outcome(c, s, [], Some(e))
        case Ok(ds) =>
          var stored := StoreMacsSpec(c, s, OutputOf(ms));
          Outcome(stored.coll, s, if stored.error.None? then ds else [], stored.error)
  }

  lemma {:induction false} DecodeSnapshotCases(env: Env, name: Bytes, c: Collection, init: HashState, ss: SyncdSnapshot, validate: bool)
    ensures var o := DecodeSnapshotSpec(env, name, c, init, ss, validate);
            var ms := SnapshotMutations(ss.records);
            if o.error.Some? && o.error.value != ConstraintViolation then o.coll == c && o.mutations == []
            else
              && SetsSliceable(ms)
              && var s := SnapshotState(env, init, ss);
                 var stored := StoreMacsSpec(c, s, OutputOf(ms));
                 && DecodeAll(env, ms, validate, s.version).Ok?
                 && o.coll == stored.coll && o.error == stored.error && o.state == s
                 && (o.error.None? ==> Ok(o.mutations) == DecodeAll(env, ms, validate, s.version))
  {
  }

  ghost function DecodePatchesSpec(env: Env, c: Collection, list: PatchList, init: HashState, validate: bool): Outcome {
    match list.snapshot
    case None => ApplyPatches(env, list.name, c, init, [], list.patches, validate)
    case Some(ss) =>
      var o := DecodeSnapshotSpec(env, list.name, c, init, ss, validate);
      if o.error.Some? then o
      else ApplyPatches(env, list.name, o.coll, o.state, o.mutations, list.patches, validate)
  }

  // ---------- the processor ----------

  class Processor {
    const env: Env
    var saved: Option<HashState>
    var rows: Rows

    constructor (env: Env, c: Collection)
      ensures this.env == env && Coll() == c
    {
      this.env, saved, rows := env, c.saved, c.rows;
    }

    ghost function Coll(): Collection
      reads this
    {
      Collection(saved, rows)
    }

    /** The closures handed to updateHash; the patch is searched from the newest earlier mutation down. */
    static method FindPrevious(l: Lookup, ms: seq<SyncdMutation>, n: nat) returns (r: Option<Bytes>)
      requires n < |ms| && SetsSliceable(ms[..n])
      ensures r == Prev(l, ms, n)
    {
      match l
      case Nowhere => r := None;
      case StoreOnly(t) => r := Find(t, ms[n].indexBlob);
      case PatchThenStore(t) =>
        var i := n;
        while i > 0
          invariant 0 <= i <= n && SetsSliceable(ms[..i])
          invariant Prev(l, ms, n) == PrevInPatch(ms, i, ms[n].indexBlob, t)
        {
          assert ms[..i][i - 1] == ms[i - 1];
          assert ms[..i][..i - 1] == ms[..i - 1];
          if ms[i - 1].indexBlob == ms[n].indexBlob {
            return if ms[i - 1].op == SET then Some(ValueMac(ms[i - 1])) else None;
          }
          i := i - 1;
        }
        r := Find(t, ms[n].indexBlob);
    }

    /** HashState.updateHash: collects the two lists, then changes a copy of the hash in place. */
    static method UpdateHash(env: Env, h: Hash, l: Lookup, ms: seq<SyncdMutation>)
      returns (r: Result<Hash, Failure>, warnings: seq<Bytes>)
      ensures !SetsSliceable(ms) ==> r == Err(SliceBounds)
      ensures SetsSliceable(ms) ==> r == Ok(FullHash(env.expand, h, l, ms))
      ensures SetsSliceable(ms) ==> SetsSliceable(ms[..|ms|]) && warnings == Warnings(l, ms, |ms|)
    {
      var added, removed: seq<Bytes> := [], [];
      warnings := [];
      for i := 0 to |ms|
        invariant SetsSliceable(ms[..i])
        invariant added == Added(ms, i) && removed == Removed(l, ms, i) && warnings == Warnings(l, ms, i)
      {
        if ms[i].op == SET && |ms[i].valueBlob| < MAC_SIZE {
          return Err(SliceBounds), warnings;
        }
        assert ms[..i + 1][..i] == ms[..i];
        if ms[i].op == SET {
          added := added + [ValueMac(ms[i])];
        }
        var removal := FindPrevious(l, ms, i);
        if removal.Some? {
          removed := removed + [removal.value];
        } else if ms[i].op == REMOVE {
          warnings := warnings + [ms[i].indexBlob];
        }
      }
      assert ms[..|ms|] == ms;
      var buffer := new byte[HASH_SIZE](i requires 0 <= i < HASH_SIZE => h[i]);
      assert buffer[..] == h;
      SubtractThenAddInPlace(env.expand, buffer, removed, added);
      r := Ok(buffer[..]);
    }

    method ValidatePatch(name: Bytes, patch: SyncdPatch, cur: HashState, validate: bool) returns (r: Result<HashState, Failure>)
      ensures r == ValidatePatchSpec(env, name, rows, patch, cur, validate)
    {
      var hashed, _ := UpdateHash(env, cur.hash, PatchThenStore(Live(rows)), patch.mutations);
      if hashed.Err? {
        return Err(hashed.error);
      }
      var state := HashState(patch.version, hashed.value);
      if validate {
        var checked := CheckSnapshotMac(env, name, state, patch.keyId, patch.snapshotMac);
        if checked.Err? {
          return Err(checked.error);
        }
        var mac := GeneratePatchMac(env, patch.snapshotMac, patch.mutations, name, checked.value.patchMac, patch.version);
        if mac.Err? {
          return Err(mac.error);
        }
        if mac.value != patch.patchMac {
          return Err(MismatchingPatchMAC);
        }
      }
      r := Ok(state);
    }

    /** decodeMutations: stops at the first mutation that does not decode. */
    method DecodeMutations(ms: seq<SyncdMutation>, out: PatchOutput, validate: bool, v: uint64) returns (error: Option<Failure>)
      requires SetsSliceable(ms) && out.removedMacs == [] && out.addedMacs == []
      modifies out
      ensures match DecodeAll(env, ms, validate, v)
              case Err(e) => error == Some(e)
              case Ok(ds) => error == None && out.mutations == old(out.mutations) + ds
                             && Output(out.removedMacs, out.addedMacs) == OutputOf(ms)
    {
      ghost var o, ds := Output([], []), [];
      for i := 0 to |ms|
        invariant SetsSliceable(ms[..i]) && o == OutputOf(ms[..i]) && DecodeAll(env, ms[..i], validate, v) == Ok(ds)
        invariant out.mutations == old(out.mutations) + ds
        invariant out.removedMacs == o.removed && out.addedMacs == o.added
      {
        DecodeAllStep(env, ms, i, validate, v);
        OutputStep(ms, i);
        var d := DecodeMutation(env, ms[i], validate, v);
        if d.Err? {
          DecodeAllFailsOnPrefix(env, ms, i + 1, validate, v);
          return Some(d.error);
        }
        if ms[i].op == REMOVE {
          out.RemoveMac(ms[i].indexBlob);
        } else {
          out.AddMac(ms[i].indexBlob, ValueMac(ms[i]));
        }
        out.mutations := out.mutations + [d.value];
        o, ds := OutputOf(ms[..i + 1]), ds + [d.value];
      }
      assert ms[..|ms|] == ms;
      error := None;
    }

    method StoreMacs(state: HashState, out: PatchOutput) returns (error: Option<Failure>)
      modifies this
      ensures StoreOutcome(Coll(), error) == StoreMacsSpec(old(Coll()), state, Output(out.removedMacs, out.addedMacs))
    {
      saved := Some(state);
      rows := Deleted(rows, out.removedMacs);
      if !Insertable(rows, state.version, out.addedMacs) {
        return Some(ConstraintViolation);
      }
      rows := Inserted(rows, state.version, out.addedMacs);
      error := None;
    }

    method DecodeSnapshot(name: Bytes, ss: SyncdSnapshot, init: HashState, validate: bool)
      returns (mutations: seq<Mutation>, state: HashState, error: Option<Failure>)
      modifies this
      ensures Outcome(Coll(), state, mutations, error) == DecodeSnapshotSpec(env, name, old(Coll()), init, ss, validate)
    {
      var ms := SnapshotMutations(ss.records);
      mutations, state := [], init;
      var hashed, _ := UpdateHash(env, init.hash, Nowhere, ms);
      if hashed.Err? {
        return mutations, state, Some(hashed.error);
      }
      state := HashState(ss.version, hashed.value);
      if validate {
        var checked := CheckSnapshotMac(env, name, state, ss.keyId, ss.mac);
        if checked.Err? {
          return mutations, state, Some(checked.error);
        }
      }
      var out := new PatchOutput([]);
      error := DecodeMutations(ms, out, validate, state.version);
      if error.Some? {
        return;
      }
      error := StoreMacs(state, out);
      if error.None? {
        mutations := out.mutations;
      }
    }

    method DecodePatches(list: PatchList, init: HashState, validate: bool)
      returns (mutations: seq<Mutation>, state: HashState, error: Option<Failure>)
      modifies this
      ensures Outcome(Coll(), state, mutations, error) == DecodePatchesSpec(env, old(Coll()), list, init, validate)
    {
      mutations, state, error := [], init, None;
      if list.snapshot.Some? {
        mutations, state, error := DecodeSnapshot(list.name, list.snapshot.value, state, validate);
        if error.Some? {
          return;
        }
      }
      for k := 0 to |list.patches|
        invariant error.None?
        invariant ApplyPatches(env, list.name, Coll(), state, mutations, list.patches[k..], validate) ==
                  DecodePatchesSpec(env, old(Coll()), list, init, validate)
      {
        var patch := list.patches[k];
        assert list.patches[k..][0] == patch && list.patches[k..][1..] == list.patches[k + 1..];
        var validated := ValidatePatch(list.name, patch, state, validate);
        if validated.Err? {
          error := Some(validated.error);
          return;
        }
        var out := new PatchOutput(mutations);
        error := DecodeMutations(patch.mutations, out, validate, validated.value.version);
        if error.Some? {
          return;
        }
        error := StoreMacs(validated.value, out);
        if error.Some? {
          return;
        }
        mutations, state := out.mutations, validated.value;
      }
    }
  }
}
