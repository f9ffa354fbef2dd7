/**
 Asking the phone for missing app state keys (requestMissingAppStateKeys, appstate.go; pruneExpiredCache, cache.go): each
 key at most once a day, from a table of bounded size.
 */
module KeyRequests {
  import opened Prelude

  const DAY: int := 86_400_000_000_000 // 24 hours in nanoseconds
  const MAX_ENTRIES: nat := 1024

  type Table = map<Bytes, int>

  datatype Asked = Asked(key: Bytes, now: int)

  /** The table and every request sent so far. */
  datatype State = State(table: Table, log: seq<Asked>)

  datatype Call = Call(keyIds: seq<Bytes>, now: int)

  // ---------- one call ----------

  predicate Due(t: Table, key: Bytes, now: int) {
    key !in t || t[key] + DAY < now
  }

  function Pruned(t: Table, now: int): Table {
    if |t| >= MAX_ENTRIES then map k | k in t && t[k] >= now - DAY :: t[k] else t
  }

  function StepKey(s: State, key: Bytes, now: int): State {
    if Due(s.table, key, now) && (key in s.table || |s.table| < MAX_ENTRIES)
    then State(s.table[key := now], s.log + [Asked(key, now)])
    else s
  }

  function StepKeys(s: State, keyIds: seq<Bytes>, now: int): State {
    if keyIds == [] then s else StepKey(StepKeys(s, keyIds[..|keyIds| - 1], now), keyIds[|keyIds| - 1], now)
  }

  function StepCall(s: State, c: Call): State {
    StepKeys(s.(table := Pruned(s.table, c.now)), c.keyIds, c.now)
  }

  function Run(calls: seq<Call>): State {
    if calls == [] then State(map[], []) else StepCall(Run(calls[..|calls| - 1]), calls[|calls| - 1])
  }

  // ---------- the class ----------

  class KeyRequester {
    var appStateKeyRequests: Table

    constructor ()
      ensures appStateKeyRequests == map[]
    {
      appStateKeyRequests := map[];
    }

    /** Prunes the table when it is full, then lets each key through that is due and has a slot. */
    method RequestMissingAppStateKeys(rawKeyIds: seq<Bytes>, now: int) returns (filtered: seq<Bytes>)
      modifies this
      ensures var s := StepCall(State(old(appStateKeyRequests), []), Call(rawKeyIds, now));
              && appStateKeyRequests == s.table
              && |filtered| == |s.log|
              && forall i :: 0 <= i < |filtered| ==> s.log[i] == Asked(filtered[i], now)
    {
      filtered := [];
      if |appStateKeyRequests| >= MAX_ENTRIES {
        PruneExpiredCache(now - DAY);
      }
      ghost var s0 := State(appStateKeyRequests, []);
      for i := 0 to |rawKeyIds|
        invariant appStateKeyRequests == StepKeys(s0, rawKeyIds[..i], now).table
        invariant Matches(filtered, now, StepKeys(s0, rawKeyIds[..i], now).log)
      {
        var keyId := rawKeyIds[i];
        assert rawKeyIds[..i + 1][..i] == rawKeyIds[..i];
        if keyId !in appStateKeyRequests || appStateKeyRequests[keyId] + DAY < now {
          if keyId !in appStateKeyRequests && |appStateKeyRequests| >= MAX_ENTRIES {
            continue;
          }
          appStateKeyRequests := appStateKeyRequests[keyId := now];
          filtered := filtered + [keyId];
        }
      }
      assert rawKeyIds[..|rawKeyIds|] == rawKeyIds;
    }

    method PruneExpiredCache(cutoff: int)
      modifies this
      ensures appStateKeyRequests == map k | k in old(appStateKeyRequests) && old(appStateKeyRequests)[k] >= cutoff
                                         :: old(appStateKeyRequests)[k]
    {
      var all := appStateKeyRequests;
      var left := all.Keys;
      while left != {}
        invariant left <= all.Keys
        invariant appStateKeyRequests == map k | k in all && (k in left || all[k] >= cutoff) :: all[k]
        decreases |left|
      {
        var key :| key in left;
        left := left - {key};
        if appStateKeyRequests[key] < cutoff {
          appStateKeyRequests := appStateKeyRequests - {key};
        }
      }
    }
  }

  ghost predicate Matches(filtered: seq<Bytes>, now: int, log: seq<Asked>) {
    |filtered| == |log| && forall i :: 0 <= i < |filtered| ==> log[i] == Asked(filtered[i], now)
  }

  // ---------- every run: at most once a day, at most 1024 entries ----------

  /** Two requests for one key are more than a day apart. */
  ghost predicate Spaced(log: seq<Asked>) {
    forall i, j :: 0 <= i < j < |log| && log[i].key == log[j].key ==> log[j].now - log[i].now > DAY
  }

  /** Every request is remembered until it is more than a day old. */
  ghost predicate Remembered(s: State, clock: int) {
    forall i :: 0 <= i < |s.log| ==>
      s.log[i].now <= clock &&
      ((s.log[i].key in s.table && s.table[s.log[i].key] >= s.log[i].now) || s.log[i].now + DAY < clock)
  }

  ghost predicate Inv(s: State, clock: int) {
    Spaced(s.log) && Remembered(s, clock) && |s.table| <= MAX_ENTRIES
  }

  ghost predicate Monotone(calls: seq<Call>) {
    forall i, j :: 0 <= i < j < |calls| ==> calls[i].now <= calls[j].now
  }

  lemma {:induction false} SizeAfterUpdate(t: Table, key: Bytes, now: int)
    ensures |t[key := now]| == if key in t then |t| else |t| + 1
  {
  }

  lemma {:induction false} StepKeyKeepsInv(s: State, key: Bytes, now: int)
    requires Inv(s, now)
    ensures Inv(StepKey(s, key, now), now)
  {
  }

  lemma {:induction false} StepKeysKeepInv(s: State, keyIds: seq<Bytes>, now: int)
    requires Inv(s, now)
    ensures Inv(StepKeys(s, keyIds, now), now)
  {
    if keyIds != [] {
      StepKeysKeepInv(s, keyIds[..|keyIds| - 1], now);
      StepKeyKeepsInv(StepKeys(s, keyIds[..|keyIds| - 1], now), keyIds[|keyIds| - 1], now);
    }
  }

  lemma {:induction false} PruneKeepsInv(s: State, clock: int, now: int)
    requires Inv(s, clock) && clock <= now
    ensures Inv(s.(table := Pruned(s.table, now)), now)
  {
    SubMapIsSmaller(Pruned(s.table, now), s.table);
  }

  lemma {:induction false} SubMapIsSmaller(a: Table, b: Table)
    requires a.Keys <= b.Keys
    ensures |a| <= |b|
  {
    SubsetIsSmaller(a.Keys, b.Keys);
  }

  lemma {:induction false} SubsetIsSmaller<T>(a: set<T>, b: set<T>)
    requires a <= b
    ensures |a| <= |b|
    ensures |a| == |b| ==> a == b
  {
    assert b == a + (b - a);
    assert |b| == |a| + |b - a|;
  }

  /** Whatever the calls ask for, no key is asked for twice within a day and the table stays within its bound. */
  lemma {:induction false} RunKeepsInv(calls: seq<Call>)
    requires Monotone(calls)
    ensures Spaced(Run(calls).log) && |Run(calls).table| <= MAX_ENTRIES
    ensures calls != [] ==> Inv(Run(calls), calls[|calls| - 1].now)
  {
    if calls != [] {
      var before, last := calls[..|calls| - 1], calls[|calls| - 1];
      RunKeepsInv(before);
      var s := Run(before);
      PruneKeepsInv(s, if before == [] then last.now else before[|before| - 1].now, last.now);
      StepKeysKeepInv(s.(table := Pruned(s.table, last.now)), last.keyIds, last.now);
    }
  }

  // ---------- which due keys a call passes over ----------

  function KeySet(keyIds: seq<Bytes>): set<Bytes> {
    set k | k in keyIds
  }

  ghost predicate AsksEveryDueKey(t: Table, keyIds: seq<Bytes>, now: int) {
    forall k :: k in keyIds && Due(t, k, now) ==> Asked(k, now) in StepKeys(State(t, []), keyIds, now).log
  }

  /** How the state s within a call relates to the table t at its start, after the given keys. */
  ghost predicate Reached(t: Table, s: State, keys: set<Bytes>, now: int) {
    && |s.table| <= MAX_ENTRIES
    && t.Keys <= s.table.Keys <= t.Keys + keys
    && (forall k :: k in s.table ==> Asked(k, now) in s.log || (k in t && s.table[k] == t[k]))
    && (forall k :: Asked(k, now) in s.log ==> k in s.table)
  }

  lemma {:induction false} ReachedNext(t: Table, s: State, keys: set<Bytes>, key: Bytes, now: int)
    requires Reached(t, s, keys, now)
    ensures Reached(t, StepKey(s, key, now), keys + {key}, now)
  {
    SizeAfterUpdate(s.table, key, now);
  }

  lemma {:induction false} CallReaches(t: Table, keyIds: seq<Bytes>, now: int)
    requires |t| <= MAX_ENTRIES
    ensures Reached(t, StepKeys(State(t, []), keyIds, now), KeySet(keyIds), now)
  {
    if keyIds != [] {
      var n := |keyIds| - 1;
      CallReaches(t, keyIds[..n], now);
      KeySetSnoc(keyIds);
      ReachedNext(t, StepKeys(State(t, []), keyIds[..n], now), KeySet(keyIds[..n]), keyIds[n], now);
    }
  }

  lemma {:induction false} KeySetSnoc(keyIds: seq<Bytes>)
    requires keyIds != []
    ensures KeySet(keyIds) == KeySet(keyIds[..|keyIds| - 1]) + {keyIds[|keyIds| - 1]}
  {
  }

  /** A due key that fits is asked for, unless the call has asked for it already. */
  lemma {:induction false} RoomAsksNext(t: Table, s: State, keys: set<Bytes>, key: Bytes, now: int)
    requires Reached(t, s, keys, now) && Due(t, key, now)
    requires |t.Keys + keys + {key}| <= MAX_ENTRIES
    ensures Asked(key, now) in StepKey(s, key, now).log
  {
    if key !in s.table {
      SubsetIsSmaller(s.table.Keys, t.Keys + keys + {key});
    }
  }

  /** With room for all, every due key is asked for. */
  lemma {:induction false} RoomAsksAll(t: Table, keyIds: seq<Bytes>, now: int, k: Bytes)
    requires |t| <= MAX_ENTRIES && |t.Keys + KeySet(keyIds)| <= MAX_ENTRIES
    requires k in keyIds && Due(t, k, now)
    ensures Asked(k, now) in StepKeys(State(t, []), keyIds, now).log
  {
    var n := |keyIds| - 1;
    KeySetSnoc(keyIds);
    if k == keyIds[n] {
      CallReaches(t, keyIds[..n], now);
      assert t.Keys + KeySet(keyIds) == t.Keys + KeySet(keyIds[..n]) + {k};
      RoomAsksNext(t, StepKeys(State(t, []), keyIds[..n], now), KeySet(keyIds[..n]), k, now);
    } else {
      SubsetIsSmaller(t.Keys + KeySet(keyIds[..n]), t.Keys + KeySet(keyIds));
      RoomAsksAll(t, keyIds[..n], now, k);
    }
  }

  /**
   A call asks for every due key exactly if the pruned table and the call's keys fit together. Keys beyond that are
   passed over even when slots are held by expired entries, because pruning only happens before the loop.
   */
  lemma {:induction false} AsksEveryDueKeyIff(t: Table, keyIds: seq<Bytes>, now: int)
    requires |t| <= MAX_ENTRIES
    ensures AsksEveryDueKey(t, keyIds, now) <==> |t.Keys + KeySet(keyIds)| <= MAX_ENTRIES
  {
    if |t.Keys + KeySet(keyIds)| <= MAX_ENTRIES {
      forall k | k in keyIds && Due(t, k, now)
        ensures Asked(k, now) in StepKeys(State(t, []), keyIds, now).log
      {
        RoomAsksAll(t, keyIds, now, k);
      }
    } else {
      CallReaches(t, keyIds, now);
      var s := StepKeys(State(t, []), keyIds, now);
      if t.Keys + KeySet(keyIds) <= s.table.Keys {
        SubsetIsSmaller(t.Keys + KeySet(keyIds), s.table.Keys);
        assert false;
      }
      var k :| k in KeySet(keyIds) && k !in s.table.Keys;
      assert Due(t, k, now) && Asked(k, now) !in s.log;
    }
  }

  /** One slot left, every other entry long expired: the second of two new keys is still passed over. */
  lemma {:induction false} ExpiredEntriesBlockNewKeys(t: Table, a: Bytes, b: Bytes, now: int)
    requires |t| == MAX_ENTRIES - 1 && a !in t && b !in t && a != b
    ensures StepCall(State(t, []), Call([a, b], now)).log == [Asked(a, now)]
  {
    SizeAfterUpdate(t, a, now);
    var one := [a];
    assert [a, b][..1] == one && one[..0] == [];
    var empty: seq<Bytes> := [];
    assert StepKeys(State(t, []), empty, now) == State(t, []);
    assert StepKeys(State(t, []), one, now) == State(t[a := now], [Asked(a, now)]);
  }
}
