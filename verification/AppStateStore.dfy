/**
 The stored side of a collection.

 patchOutput (appstate/decode.go) batches a patch into a list of indexes to delete and a list of
 rows to add.  The SQL store (store/sqlstore/store.go) keeps one row per (version, index), reads the
 row with the highest version, deletes an index in all versions, and inserts without upsert, so a
 repeated key is refused.
 */
module AppStateStore {
  import opened Prelude
  import opened LtHash
  import opened AppStateModel
  import opened AppStateTable

  datatype MacEntry = MacEntry(index: Bytes, value: Bytes)

  // ---------- patchOutput ----------

  datatype Output = Output(removed: seq<Bytes>, added: seq<MacEntry>)

  /** slices.DeleteFunc: the entries of other indexes, in order. */
  function Without(es: seq<MacEntry>, idx: Bytes): seq<MacEntry> {
    if es == [] then []
    else if es[|es| - 1].index == idx then Without(es[..|es| - 1], idx)
    else Without(es[..|es| - 1], idx) + [es[|es| - 1]]
  }

  function OutputOf(ms: seq<SyncdMutation>): Output
    requires SetsSliceable(ms)
  {
    if ms == [] then Output([], [])
    else
      var o, m := OutputOf(ms[..|ms| - 1]), ms[|ms| - 1];
      if m.op == SET then o.(added := o.added + [MacEntry(m.indexBlob, ValueMac(m))])
      else Output(o.removed + [m.indexBlob], Without(o.added, m.indexBlob))
  }

  lemma {:induction false} OutputStep(ms: seq<SyncdMutation>, i: nat)
    requires i < |ms| && SetsSliceable(ms)
    ensures SetsSliceable(ms[..i]) && SetsSliceable(ms[..i + 1])
    ensures var o := OutputOf(ms[..i]);
            OutputOf(ms[..i + 1]) == if ms[i].op == SET then Output(o.removed, o.added + [MacEntry(ms[i].indexBlob, ValueMac(ms[i]))])
                                     else Output(o.removed + [ms[i].indexBlob], Without(o.added, ms[i].indexBlob))
  {
    assert ms[..i + 1][..i] == ms[..i];
  }

  class PatchOutput {
    var removedMacs: seq<Bytes>
    var addedMacs: seq<MacEntry>
    var mutations: seq<Mutation>

    constructor (mutations: seq<Mutation>)
      ensures removedMacs == [] && addedMacs == [] && this.mutations == mutations
    {
      removedMacs, addedMacs, this.mutations := [], [], mutations;
    }

    method RemoveMac(indexMac: Bytes)
      modifies `removedMacs, `addedMacs
      ensures removedMacs == old(removedMacs) + [indexMac]
      ensures addedMacs == Without(old(addedMacs), indexMac)
    {
      removedMacs := removedMacs + [indexMac];
      var kept := [];
      for i := 0 to |addedMacs|
        invariant addedMacs == old(addedMacs) && removedMacs == old(removedMacs) + [indexMac]
        invariant kept == Without(addedMacs[..i], indexMac)
      {
        assert addedMacs[..i + 1][..i] == addedMacs[..i];
        if addedMacs[i].index != indexMac {
          kept := kept + [addedMacs[i]];
        }
      }
      assert addedMacs[..|addedMacs|] == addedMacs;
      addedMacs := kept;
    }

    method AddMac(indexMac: Bytes, valueMac: Bytes)
      modifies `addedMacs
      ensures addedMacs == old(addedMacs) + [MacEntry(indexMac, valueMac)]
    {
      addedMacs := addedMacs + [MacEntry(indexMac, valueMac)];
    }
  }

  // ---------- batching is sound for an upserting store ----------

  function DeleteAll(t: Table, removed: seq<Bytes>): Table {
    map k | k in t && k !in removed :: t[k]
  }

  function UpsertAll(t: Table, added: seq<MacEntry>): Table {
    if added == [] then t
    else UpsertAll(t, added[..|added| - 1])[added[|added| - 1].index := added[|added| - 1].value]
  }

  lemma {:induction false} DropUpdate(m: Table, k: Bytes, v: Bytes, d: Bytes)
    ensures m[k := v] - {d} == if k == d then m - {d} else (m - {d})[k := v]
  {
  }

  lemma {:induction false} UpsertWithout(t: Table, added: seq<MacEntry>, idx: Bytes)
    ensures UpsertAll(t - {idx}, Without(added, idx)) == UpsertAll(t, added) - {idx}
  {
    if added != [] {
      var front, e := added[..|added| - 1], added[|added| - 1];
      UpsertWithout(t, front, idx);
      DropUpdate(UpsertAll(t, front), e.index, e.value, idx);
      if e.index != idx {
        UpsertSnoc(t - {idx}, Without(front, idx), e);
      }
    }
  }

  lemma {:induction false} UpsertSnoc(t: Table, es: seq<MacEntry>, e: MacEntry)
    ensures UpsertAll(t, es + [e]) == UpsertAll(t, es)[e.index := e.value]
  {
  }

  /** Deleting everything removed and then upserting everything added is applying the mutations in order. */
  lemma {:induction false} BatchEqualsSequence(t: Table, ms: seq<SyncdMutation>)
    requires SetsSliceable(ms)
    ensures UpsertAll(DeleteAll(t, OutputOf(ms).removed), OutputOf(ms).added) == ApplyAll(t, ms)
  {
    if ms == [] {
      assert DeleteAll(t, []) == t;
    } else {
      var front, m := ms[..|ms| - 1], ms[|ms| - 1];
      BatchEqualsSequence(t, front);
      var o := OutputOf(front);
      if m.op == REMOVE {
        assert DeleteAll(t, o.removed + [m.indexBlob]) == DeleteAll(t, o.removed) - {m.indexBlob};
        UpsertWithout(DeleteAll(t, o.removed), o.added, m.indexBlob);
      } else {
        assert OutputOf(ms).added[..|o.added|] == o.added;
      }
    }
  }

  // ---------- when a patch adds the same index twice ----------

  /** How often `k` is SET after its last REMOVE in the patch. */
  function PendingSets(ms: seq<SyncdMutation>, k: Bytes): nat {
    if ms == [] then 0
    else
      var m := ms[|ms| - 1];
      if m.indexBlob != k then PendingSets(ms[..|ms| - 1], k)
      else if m.op == REMOVE then 0
      else PendingSets(ms[..|ms| - 1], k) + 1
  }

  /** No index is SET twice without a later REMOVE: what the insert without upsert can store. */
  ghost predicate SetsAtMostOnce(ms: seq<SyncdMutation>) {
    forall k :: PendingSets(ms, k) <= 1
  }

  predicate DistinctEntries(es: seq<MacEntry>) {
    forall i, j :: 0 <= i < j < |es| ==> es[i].index != es[j].index
  }

  function CountIndex(es: seq<MacEntry>, k: Bytes): nat {
    if es == [] then 0 else CountIndex(es[..|es| - 1], k) + (if es[|es| - 1].index == k then 1 else 0)
  }

  lemma {:induction false} CountWithout(es: seq<MacEntry>, idx: Bytes, k: Bytes)
    ensures CountIndex(Without(es, idx), k) == if k == idx then 0 else CountIndex(es, k)
  {
    if es != [] {
      var front, e := es[..|es| - 1], es[|es| - 1];
      CountWithout(front, idx, k);
      if e.index != idx {
        CountSnoc(Without(front, idx), e, k);
      }
    }
  }

  lemma {:induction false} CountSnoc(es: seq<MacEntry>, e: MacEntry, k: Bytes)
    ensures CountIndex(es + [e], k) == CountIndex(es, k) + (if e.index == k then 1 else 0)
  {
  }

  lemma {:induction false} CountPositive(es: seq<MacEntry>, k: Bytes)
    ensures CountIndex(es, k) > 0 <==> exists i :: 0 <= i < |es| && es[i].index == k
  {
    if es != [] {
      CountPositive(es[..|es| - 1], k);
      assert es[|es| - 1].index == k ==> exists i :: 0 <= i < |es| && es[i].index == k;
    }
  }

  lemma {:induction false} DistinctMeansCountOne(es: seq<MacEntry>)
    ensures DistinctEntries(es) <==> forall k :: CountIndex(es, k) <= 1
  {
    if es != [] {
      var front, e := es[..|es| - 1], es[|es| - 1];
      DistinctMeansCountOne(front);
      CountPositive(front, e.index);
      if DistinctEntries(es) {
        forall k ensures CountIndex(es, k) <= 1 {
          assert DistinctEntries(front) && CountIndex(front, k) <= 1;
        }
      } else if DistinctEntries(front) {
        assert CountIndex(es, e.index) > 1;
      } else {
        var k :| CountIndex(front, k) > 1;
        assert CountIndex(es, k) > 1;
      }
    }
  }

  lemma {:induction false} AddedCountsPendingSets(ms: seq<SyncdMutation>, k: Bytes)
    requires SetsSliceable(ms)
    ensures CountIndex(OutputOf(ms).added, k) == PendingSets(ms, k)
  {
    if ms != [] {
      var front, m := ms[..|ms| - 1], ms[|ms| - 1];
      AddedCountsPendingSets(front, k);
      if m.op == SET {
        CountSnoc(OutputOf(front).added, MacEntry(m.indexBlob, ValueMac(m)), k);
      } else {
        CountWithout(OutputOf(front).added, m.indexBlob, k);
      }
    }
  }

  /** The rows a patch adds are distinct exactly when the patch sets no index twice without a later REMOVE. */
  lemma {:induction false} AddedDistinctIff(ms: seq<SyncdMutation>)
    requires SetsSliceable(ms)
    ensures DistinctEntries(OutputOf(ms).added) <==> SetsAtMostOnce(ms)
  {
    var added := OutputOf(ms).added;
    DistinctMeansCountOne(added);
    if SetsAtMostOnce(ms) {
      forall k ensures CountIndex(added, k) <= 1 {
        AddedCountsPendingSets(ms, k);
        assert PendingSets(ms, k) <= 1;
      }
    } else {
      var k :| PendingSets(ms, k) > 1;
      AddedCountsPendingSets(ms, k);
      assert CountIndex(added, k) > 1;
    }
  }

  // ---------- the SQL rows ----------

  /** Primary key of whatsmeow_app_state_mutation_macs within one collection. */
  datatype RowKey = RowKey(version: uint64, index: Bytes)

  type Rows = map<RowKey, Bytes>

  predicate IsNewest(rows: Rows, k: RowKey) {
    k in rows && forall o :: o in rows && o.index == k.index ==> o.version <= k.version
  }

  /** What GetAppStateMutationMAC answers: per index, the value of the row with the highest version. */
  function Live(rows: Rows): Table {
    map k | k in rows && IsNewest(rows, k) :: k.index := rows[k]
  }

  function Deleted(rows: Rows, removed: seq<Bytes>): Rows {
    map k | k in rows && k.index !in removed :: rows[k]
  }

  function Inserted(rows: Rows, v: uint64, added: seq<MacEntry>): Rows {
    if added == [] then rows
    else Inserted(rows, v, added[..|added| - 1])[RowKey(v, added[|added| - 1].index) := added[|added| - 1].value]
  }

  /** The constraints of the table: 32-byte MACs and a unique primary key. */
  predicate Insertable(rows: Rows, v: uint64, added: seq<MacEntry>) {
    && DistinctEntries(added)
    && forall e :: e in added ==> |e.index| == MAC_SIZE && |e.value| == MAC_SIZE && RowKey(v, e.index) !in rows
  }

  predicate OlderOnly(rows: Rows, idx: Bytes, v: uint64) {
    forall o :: o in rows && o.index == idx ==> o.version < v
  }

  lemma {:induction false} NewestExists(rows: Rows, k: RowKey) returns (n: RowKey)
    requires k in rows
    ensures n.index == k.index && IsNewest(rows, n)
    decreases |rows|
  {
    if IsNewest(rows, k) {
      n := k;
    } else {
      var o :| o in rows && o.index == k.index && o.version > k.version;
      var less := rows - {k};
      assert less.Keys == rows.Keys - {k};
      n := NewestExists(less, o);
    }
  }

  lemma {:induction false} LiveFind(rows: Rows, k: RowKey)
    requires IsNewest(rows, k)
    ensures Find(Live(rows), k.index) == Some(rows[k])
  {
  }

  lemma {:induction false} LiveAbsent(rows: Rows, idx: Bytes)
    requires forall k :: k in rows ==> k.index != idx
    ensures Find(Live(rows), idx) == None
  {
  }

  lemma {:induction false} SameFinds(a: Table, b: Table)
    requires forall k :: Find(a, k) == Find(b, k)
    ensures a == b
  {
    forall k ensures (k in a <==> k in b) && (k in a ==> a[k] == b[k]) {
      assert Find(a, k) == Find(b, k);
    }
  }

  lemma {:induction false} LiveDeletedAt(rows: Rows, removed: seq<Bytes>, idx: Bytes)
    ensures Find(Live(Deleted(rows, removed)), idx) == if idx in removed then None else Find(Live(rows), idx)
  {
  }

  lemma {:induction false} LiveAfterDelete(rows: Rows, removed: seq<Bytes>)
    ensures Live(Deleted(rows, removed)) == DeleteAll(Live(rows), removed)
  {
    var a, b := Live(Deleted(rows, removed)), DeleteAll(Live(rows), removed);
    forall k ensures Find(a, k) == Find(b, k) {
      LiveDeletedAt(rows, removed, k);
    }
    SameFinds(a, b);
  }

  /** A new row is read back exactly when no stored row of its index has a higher version. */
  lemma {:induction false} LiveAfterInsertOne(rows: Rows, v: uint64, e: MacEntry, idx: Bytes)
    requires RowKey(v, e.index) !in rows
    ensures Find(Live(rows[RowKey(v, e.index) := e.value]), idx) ==
            if idx == e.index && OlderOnly(rows, idx, v) then Some(e.value) else Find(Live(rows), idx)
  {
    var key := RowKey(v, e.index);
    var more := rows[key := e.value];
    if idx == e.index && OlderOnly(rows, idx, v) {
      LiveFind(more, key);
    } else if k :| k in rows && k.index == idx {
      var n := NewestExists(rows, k);
      assert IsNewest(more, n) by {
        if idx == e.index {
          var o :| o in rows && o.index == idx && o.version >= v;
          assert o.version <= n.version;
        }
      }
      LiveFind(rows, n);
      LiveFind(more, n);
    } else {
      LiveAbsent(rows, idx);
      LiveAbsent(more, idx);
    }
  }

  lemma {:induction false} InsertedKeys(rows: Rows, v: uint64, added: seq<MacEntry>, k: RowKey)
    ensures k in Inserted(rows, v, added) <==>
            k in rows || (k.version == v && exists j :: 0 <= j < |added| && added[j].index == k.index)
  {
    if added != [] {
      InsertedKeys(rows, v, added[..|added| - 1], k);
      assert added[|added| - 1].index == k.index ==> exists j :: 0 <= j < |added| && added[j].index == k.index;
    }
  }

  /** The value UpsertAll leaves under an index of a list of distinct entries. */
  lemma {:induction false} UpsertFind(t: Table, added: seq<MacEntry>, k: Bytes)
    requires DistinctEntries(added)
    ensures forall j :: 0 <= j < |added| && added[j].index == k ==> Find(UpsertAll(t, added), k) == Some(added[j].value)
    ensures (forall j :: 0 <= j < |added| ==> added[j].index != k) ==> Find(UpsertAll(t, added), k) == Find(t, k)
  {
    if added != [] {
      UpsertFind(t, added[..|added| - 1], k);
    }
  }

  /** Reading back after the insert: an added entry is found unless a newer row of its index was already there. */
  lemma {:induction false} LiveInsertedAt(rows: Rows, v: uint64, added: seq<MacEntry>, k: Bytes)
    requires Insertable(rows, v, added)
    ensures Find(Live(Inserted(rows, v, added)), k) ==
            if OlderOnly(rows, k, v) then Find(UpsertAll(Live(rows), added), k) else Find(Live(rows), k)
  {
    if added != [] {
      var front, e := added[..|added| - 1], added[|added| - 1];
      assert e in added && forall f :: f in front ==> f in added;
      LiveInsertedAt(rows, v, front, k);
      InsertedKeys(rows, v, front, RowKey(v, e.index));
      LiveAfterInsertOne(Inserted(rows, v, front), v, e, k);
      if k == e.index {
        UpsertFind(Live(rows), front, k);
        assert OlderOnly(Inserted(rows, v, front), k, v) <==> OlderOnly(rows, k, v) by {
          forall o: RowKey | o.index == k ensures o in Inserted(rows, v, front) <==> o in rows {
            InsertedKeys(rows, v, front, o);
          }
        }
      }
    }
  }

  // ---------- a collection and storeMACs ----------

  /** The row of whatsmeow_app_state_version, if any, and the MAC rows that reference it. */
  datatype Collection = Collection(saved: Option<HashState>, rows: Rows)

  datatype StoreOutcome = StoreOutcome(coll: Collection, error: Option<Failure>)

  /** storeMACs: three writes; the last one can be refused after the first two took effect. */
  function StoreMacsSpec(c: Collection, state: HashState, out: Output): StoreOutcome {
    var cleared := Deleted(c.rows, out.removed);
    if Insertable(cleared, state.version, out.added) then
      StoreOutcome(Collection(Some(state), Inserted(cleared, state.version, out.added)), None)
    else
      StoreOutcome(Collection(Some(state), cleared), Some(ConstraintViolation))
  }

  /** Rows of an index that survive the deletions and are newer than the patch, holding another value. */
  ghost predicate Shadowed(rows: Rows, v: uint64, ms: seq<SyncdMutation>)
    requires SetsSliceable(ms)
  {
    exists e :: e in OutputOf(ms).added && e.index !in OutputOf(ms).removed && !OlderOnly(rows, e.index, v)
                && Find(Live(rows), e.index) != Some(e.value)
  }

  /** Storing a patch succeeds exactly under the table's constraints. */
  lemma {:induction false} StoreSucceedsIff(c: Collection, state: HashState, ms: seq<SyncdMutation>)
    requires SetsSliceable(ms)
    ensures StoreMacsSpec(c, state, OutputOf(ms)).error.None? <==>
            && SetsAtMostOnce(ms)
            && forall e :: e in OutputOf(ms).added ==>
                 |e.index| == MAC_SIZE && |e.value| == MAC_SIZE
                 && (RowKey(state.version, e.index) !in c.rows || e.index in OutputOf(ms).removed)
  {
    AddedDistinctIff(ms);
  }

  /** One index after a successful store: the applied table, unless a newer row hides it. */
  lemma {:induction false} StoredFind(c: Collection, state: HashState, ms: seq<SyncdMutation>, k: Bytes)
    requires SetsSliceable(ms)
    requires StoreMacsSpec(c, state, OutputOf(ms)).error.None?
    ensures Find(Live(StoreMacsSpec(c, state, OutputOf(ms)).coll.rows), k) ==
            if k in OutputOf(ms).removed || OlderOnly(c.rows, k, state.version)
            then Find(ApplyAll(Live(c.rows), ms), k) else Find(Live(c.rows), k)
  {
    var out := OutputOf(ms);
    BatchEqualsSequence(Live(c.rows), ms);
    LiveAfterDelete(c.rows, out.removed);
    LiveInsertedAt(Deleted(c.rows, out.removed), state.version, out.added, k);
    LiveDeletedAt(c.rows, out.removed, k);
    assert OlderOnly(Deleted(c.rows, out.removed), k, state.version) <==>
           k in out.removed || OlderOnly(c.rows, k, state.version);
  }

  /** One index of the applied table, read off the batch. */
  lemma {:induction false} AppliedFind(t: Table, ms: seq<SyncdMutation>, k: Bytes)
    requires SetsSliceable(ms) && DistinctEntries(OutputOf(ms).added)
    ensures forall j :: 0 <= j < |OutputOf(ms).added| && OutputOf(ms).added[j].index == k ==>
              Find(ApplyAll(t, ms), k) == Some(OutputOf(ms).added[j].value)
    ensures k !in OutputOf(ms).removed && (forall j :: 0 <= j < |OutputOf(ms).added| ==> OutputOf(ms).added[j].index != k) ==>
              Find(ApplyAll(t, ms), k) == Find(t, k)
  {
    var out := OutputOf(ms);
    BatchEqualsSequence(t, ms);
    UpsertFind(DeleteAll(t, out.removed), out.added, k);
  }

  /** A successful store holds the mutations applied in order exactly when no newer row shadows one of them. */
  lemma {:induction false} StoredTableIff(c: Collection, state: HashState, ms: seq<SyncdMutation>)
    requires SetsSliceable(ms)
    requires StoreMacsSpec(c, state, OutputOf(ms)).error.None?
    ensures Live(StoreMacsSpec(c, state, OutputOf(ms)).coll.rows) == ApplyAll(Live(c.rows), ms) <==>
            !Shadowed(c.rows, state.version, ms)
  {
    var out := OutputOf(ms);
    var after := Live(StoreMacsSpec(c, state, out).coll.rows);
    var wanted := ApplyAll(Live(c.rows), ms);
    if Shadowed(c.rows, state.version, ms) {
      var e :| e in out.added && e.index !in out.removed && !OlderOnly(c.rows, e.index, state.version)
               && Find(Live(c.rows), e.index) != Some(e.value);
      StoredFind(c, state, ms, e.index);
      AppliedFind(Live(c.rows), ms, e.index);
      assert Find(after, e.index) != Find(wanted, e.index);
    } else {
      forall k ensures Find(after, k) == Find(wanted, k) {
        StoredFind(c, state, ms, k);
        AppliedFind(Live(c.rows), ms, k);
      }
      SameFinds(after, wanted);
    }
  }

  // ---------- the ordinary case: versions increase ----------

  predicate RowsUpTo(rows: Rows, v: uint64) {
    forall k :: k in rows ==> k.version <= v
  }

  /** With every stored row older than the patch, only a double SET or a malformed MAC can be refused. */
  lemma {:induction false} FreshStore(c: Collection, last: uint64, state: HashState, ms: seq<SyncdMutation>)
    requires SetsSliceable(ms) && RowsUpTo(c.rows, last) && last < state.version
    requires forall e :: e in OutputOf(ms).added ==> |e.index| == MAC_SIZE && |e.value| == MAC_SIZE
    ensures StoreMacsSpec(c, state, OutputOf(ms)).error.None? <==> SetsAtMostOnce(ms)
    ensures SetsAtMostOnce(ms) ==> Live(StoreMacsSpec(c, state, OutputOf(ms)).coll.rows) == ApplyAll(Live(c.rows), ms)
    ensures RowsUpTo(StoreMacsSpec(c, state, OutputOf(ms)).coll.rows, state.version)
  {
    StoreSucceedsIff(c, state, ms);
    var out := OutputOf(ms);
    if SetsAtMostOnce(ms) {
      StoredTableIff(c, state, ms);
    }
    forall k | k in StoreMacsSpec(c, state, out).coll.rows ensures k.version <= state.version {
      InsertedKeys(Deleted(c.rows, out.removed), state.version, out.added, k);
    }
  }
}
