/**
 What a list of mutations means: the table of index MACs to value MACs obtained by applying
 them one by one.  The hash kept by updateHash and the batched lists kept by patchOutput are
 both proved to describe exactly that table.
 */
module AppStateTable {
  import opened Prelude
  import opened LtHash
  import opened AppStateModel

  type Table = map<Bytes, Bytes>

  function ApplyOne(t: Table, m: SyncdMutation): Table
    requires m.op == SET ==> Sliceable(m)
  {
    if m.op == SET then t[m.indexBlob := ValueMac(m)] else t - {m.indexBlob}
  }

  /** The reference meaning of a patch. */
  function ApplyAll(t: Table, ms: seq<SyncdMutation>): Table
    requires SetsSliceable(ms)
  {
    if ms == [] then t
    else ApplyOne(ApplyAll(t, ms[..|ms| - 1]), ms[|ms| - 1])
  }

  function Find(t: Table, k: Bytes): Option<Bytes> { if k in t then Some(t[k]) else None }

  // ---------- previous values ----------

  /** Where updateHash looks for the value a mutation replaces; one constructor per closure passed to it. */
  datatype Lookup =
    | Nowhere                    // decodeSnapshot
    | StoreOnly(stored: Table)   // EncodePatch
    | PatchThenStore(stored: Table) // validatePatch

  /** The newest mutation of `idx` before position n decides; the store is asked only if there is none. */
  function PrevInPatch(ms: seq<SyncdMutation>, n: nat, idx: Bytes, t: Table): Option<Bytes>
    requires n <= |ms| && SetsSliceable(ms[..n])
  {
    if n == 0 then Find(t, idx)
    else if ms[n - 1].indexBlob == idx then
      (if ms[n - 1].op == SET then assert ms[..n][n - 1] == ms[n - 1]; Some(ValueMac(ms[n - 1])) else None)
    else
      assert ms[..n][..n - 1] == ms[..n - 1]; PrevInPatch(ms, n - 1, idx, t)
  }

  function Prev(l: Lookup, ms: seq<SyncdMutation>, n: nat): Option<Bytes>
    requires n < |ms| && SetsSliceable(ms[..n])
  {
    match l
    case Nowhere => None
    case StoreOnly(t) => Find(t, ms[n].indexBlob)
    case PatchThenStore(t) => PrevInPatch(ms, n, ms[n].indexBlob, t)
  }

  /** Searching the patch backwards and then the store reads the table built so far. */
  lemma {:induction false} PrevReadsAppliedTable(t: Table, ms: seq<SyncdMutation>, n: nat, idx: Bytes)
    requires n <= |ms| && SetsSliceable(ms[..n])
    ensures PrevInPatch(ms, n, idx, t) == Find(ApplyAll(t, ms[..n]), idx)
  {
    if n > 0 {
      assert ms[..n][..n - 1] == ms[..n - 1];
      PrevReadsAppliedTable(t, ms, n - 1, idx);
    }
  }

  // ---------- the incremental hash ----------

  function Added(ms: seq<SyncdMutation>, n: nat): seq<Bytes>
    requires n <= |ms| && SetsSliceable(ms[..n])
  {
    if n == 0 then []
    else
      assert ms[..n][n - 1] == ms[n - 1];
      assert ms[..n][..n - 1] == ms[..n - 1];
      Added(ms, n - 1) + (if ms[n - 1].op == SET then [ValueMac(ms[n - 1])] else [])
  }

  function Removed(l: Lookup, ms: seq<SyncdMutation>, n: nat): seq<Bytes>
    requires n <= |ms| && SetsSliceable(ms[..n])
  {
    if n == 0 then []
    else
      assert ms[..n][..n - 1] == ms[..n - 1];
      var p := Prev(l, ms, n - 1);
      Removed(l, ms, n - 1) + (if p.Some? then [p.value] else [])
  }

  /** The indexes of REMOVEs that found nothing to remove; updateHash reports them and carries on. */
  function Warnings(l: Lookup, ms: seq<SyncdMutation>, n: nat): seq<Bytes>
    requires n <= |ms| && SetsSliceable(ms[..n])
  {
    if n == 0 then []
    else
      assert ms[..n][..n - 1] == ms[..n - 1];
      Warnings(l, ms, n - 1) + (if Prev(l, ms, n - 1).None? && ms[n - 1].op == REMOVE then [ms[n - 1].indexBlob] else [])
  }

  ghost function UpdatedHash(x: Expansion, h: Hash, l: Lookup, ms: seq<SyncdMutation>, n: nat): Hash
    requires n <= |ms| && SetsSliceable(ms[..n])
  {
    SubtractThenAdd(x, h, Removed(l, ms, n), Added(ms, n))
  }

  /** The hash after a whole list of mutations. */
  ghost function FullHash(x: Expansion, h: Hash, l: Lookup, ms: seq<SyncdMutation>): Hash
    requires SetsSliceable(ms)
  {
    assert ms[..|ms|] == ms;
    UpdatedHash(x, h, l, ms, |ms|)
  }

  /** One mutation's effect on the hash. */
  lemma {:induction false} UpdatedHashStep(x: Expansion, h: Hash, l: Lookup, ms: seq<SyncdMutation>, n: nat)
    requires n < |ms| && SetsSliceable(ms[..n + 1])
    ensures SetsSliceable(ms[..n]) && (ms[n].op == SET ==> Sliceable(ms[n]))
    ensures var before := UpdatedHash(x, h, l, ms, n);
            var p := Prev(l, ms, n);
            var less := if p.Some? then Sub(before, x(p.value)) else before;
            UpdatedHash(x, h, l, ms, n + 1) == if ms[n].op == SET then Add(less, x(ValueMac(ms[n]))) else less
  {
    assert ms[..n + 1][..n] == ms[..n];
    assert ms[..n + 1][n] == ms[n];
    var r, a, p := Removed(l, ms, n), Added(ms, n), Prev(l, ms, n);
    if p.Some? {
      SubtractThenAddExtend(x, h, r, a, p.value);
      assert Removed(l, ms, n + 1) == r + [p.value];
    } else {
      assert Removed(l, ms, n + 1) == r;
    }
    if ms[n].op == SET {
      SubtractThenAddExtend(x, h, Removed(l, ms, n + 1), a, ValueMac(ms[n]));
    } else {
      assert Added(ms, n + 1) == a;
    }
  }

  /**
   The law of app-state sync: for every mix of SETs and REMOVEs, repeated or of absent indexes,
   the incrementally updated hash is the hash recomputed from the resulting table.
   */
  lemma {:induction false} HashTracksTable(x: Expansion, h: Hash, t: Table, ms: seq<SyncdMutation>, n: nat)
    requires n <= |ms| && SetsSliceable(ms[..n])
    requires h == TableHash(x, t)
    ensures UpdatedHash(x, h, PatchThenStore(t), ms, n) == TableHash(x, ApplyAll(t, ms[..n]))
  {
    if n > 0 {
      var prefix, m := ms[..n - 1], ms[n - 1];
      assert ms[..n][..n - 1] == prefix && ms[..n][n - 1] == m;
      HashTracksTable(x, h, t, ms, n - 1);
      UpdatedHashStep(x, h, PatchThenStore(t), ms, n - 1);
      PrevReadsAppliedTable(t, ms, n - 1, m.indexBlob);
      ApplyOneHash(x, ApplyAll(t, prefix), m);
    }
  }

  lemma {:induction false} ApplyOneHash(x: Expansion, t: Table, m: SyncdMutation)
    requires m.op == SET ==> Sliceable(m)
    ensures var p := Find(t, m.indexBlob);
            var less := if p.Some? then Sub(TableHash(x, t), x(p.value)) else TableHash(x, t);
            TableHash(x, ApplyOne(t, m)) == if m.op == SET then Add(less, x(ValueMac(m))) else less
  {
    var k := m.indexBlob;
    if k in t {
      TableHashRemove(x, t, k);
    } else {
      assert t - {k} == t;
    }
    if m.op == SET {
      TableHashStore(x, t, k, ValueMac(m));
    }
  }

  /** A REMOVE is reported exactly when its index is absent from the table built so far. */
  lemma {:induction false} WarningsAreAbsentRemoves(t: Table, ms: seq<SyncdMutation>, n: nat, idx: Bytes)
    requires n <= |ms| && SetsSliceable(ms[..n])
    ensures idx in Warnings(PatchThenStore(t), ms, n) <==>
            exists i :: 0 <= i < n && SetsSliceable(ms[..i]) && ms[i].op == REMOVE && ms[i].indexBlob == idx
                        && idx !in ApplyAll(t, ms[..i])
  {
    if n > 0 {
      assert ms[..n][..n - 1] == ms[..n - 1];
      WarningsAreAbsentRemoves(t, ms, n - 1, idx);
      PrevReadsAppliedTable(t, ms, n - 1, ms[n - 1].indexBlob);
    }
  }

  lemma {:induction false} AppliedKeysAreMutated(ms: seq<SyncdMutation>, n: nat, k: Bytes)
    requires n <= |ms| && SetsSliceable(ms[..n])
    requires forall i :: 0 <= i < n ==> ms[i].indexBlob != k
    ensures k !in ApplyAll(map[], ms[..n])
  {
    if n > 0 {
      assert ms[..n][..n - 1] == ms[..n - 1] && ms[..n][n - 1] == ms[n - 1];
      AppliedKeysAreMutated(ms, n - 1, k);
    }
  }

  /** Without lookups the same law holds for a list of SETs with distinct indexes applied to an empty table. */
  lemma {:induction false} SnapshotHashTracksTable(x: Expansion, ms: seq<SyncdMutation>, n: nat)
    requires n <= |ms| && SetsSliceable(ms[..n])
    requires forall i :: 0 <= i < n ==> ms[i].op == SET
    requires DistinctIndexes(ms)
    ensures UpdatedHash(x, Zero(), Nowhere, ms, n) == TableHash(x, ApplyAll(map[], ms[..n]))
  {
    if n > 0 {
      var prefix, m := ms[..n - 1], ms[n - 1];
      assert ms[..n][..n - 1] == prefix && ms[..n][n - 1] == m;
      SnapshotHashTracksTable(x, ms, n - 1);
      UpdatedHashStep(x, Zero(), Nowhere, ms, n - 1);
      AppliedKeysAreMutated(ms, n - 1, m.indexBlob);
      ApplyOneHash(x, ApplyAll(map[], prefix), m);
    }
  }

  predicate DistinctIndexes(ms: seq<SyncdMutation>) {
    forall i, j :: 0 <= i < j < |ms| ==> ms[i].indexBlob != ms[j].indexBlob
  }
}
