/**
 The in-memory cache of sent messages that answers retry receipts (retry.go): a map beside a fixed-size ring of keys.
 */
module RecentMessages {
  import opened Prelude

  const RECENT_MESSAGES_SIZE: nat := 256

  /** The cache seen from outside: its keys, oldest insertion first, and their payloads. */
  datatype Cache<K, V> = Cache(order: seq<K>, table: map<K, V>)

  datatype Sent<K, V> = Sent(key: K, payload: V)

  ghost predicate Distinct<K>(s: seq<K>) {
    forall i, j :: 0 <= i < j < |s| ==> s[i] != s[j]
  }

  // ---------- the reference: a queue of at most 256 keys ----------

  ghost function AddSpec<K, V>(c: Cache<K, V>, key: K, payload: V): Cache<K, V> {
    if key in c.table then c.(table := c.table[key := payload])
    else if |c.order| < RECENT_MESSAGES_SIZE then Cache(c.order + [key], c.table[key := payload])
    else Cache(c.order[1..] + [key], (c.table - {c.order[0]})[key := payload])
  }

  /** The cache after a history of sends, starting empty. */
  ghost function Replay<K, V>(h: seq<Sent<K, V>>): Cache<K, V> {
    if h == [] then Cache([], map[]) else AddSpec(Replay(h[..|h| - 1]), h[|h| - 1].key, h[|h| - 1].payload)
  }

  /** The sends whose key was not cached at the time, in order: every one of them takes a slot. */
  ghost function Insertions<K, V>(h: seq<Sent<K, V>>): seq<K> {
    if h == [] then []
    else
      var before := h[..|h| - 1];
      Insertions(before) + if h[|h| - 1].key in Replay(before).table then [] else [h[|h| - 1].key]
  }

  ghost function Newest<K, V>(h: seq<Sent<K, V>>, key: K): Option<V> {
    if h == [] then None
    else if h[|h| - 1].key == key then Some(h[|h| - 1].payload)
    else Newest(h[..|h| - 1], key)
  }

  function Last<T>(s: seq<T>, n: nat): seq<T> {
    if |s| <= n then s else s[|s| - n..]
  }

  // ---------- what every history keeps ----------

  ghost predicate Consistent<K, V>(c: Cache<K, V>) {
    && |c.order| <= RECENT_MESSAGES_SIZE
    && Distinct(c.order)
    && (forall k :: k in c.table ==> k in c.order)
    && (forall k :: k in c.order ==> k in c.table)
  }

  lemma {:induction false} AddKeepsConsistent<K, V>(c: Cache<K, V>, key: K, payload: V)
    requires Consistent(c)
    ensures Consistent(AddSpec(c, key, payload))
  {
  }

  lemma {:induction false} ReplayConsistent<K, V>(h: seq<Sent<K, V>>)
    ensures Consistent(Replay(h))
  {
    if h != [] {
      ReplayConsistent(h[..|h| - 1]);
      AddKeepsConsistent(Replay(h[..|h| - 1]), h[|h| - 1].key, h[|h| - 1].payload);
    }
  }

  /** The ring holds the last 256 insertions. */
  lemma {:induction false} OrderIsLastInsertions<K, V>(h: seq<Sent<K, V>>)
    ensures Replay(h).order == Last(Insertions(h), RECENT_MESSAGES_SIZE)
  {
    if h != [] {
      OrderIsLastInsertions(h[..|h| - 1]);
      ReplayConsistent(h[..|h| - 1]);
    }
  }

  lemma {:induction false} CachedIsNewest<K, V>(h: seq<Sent<K, V>>, key: K)
    requires key in Replay(h).table
    ensures Newest(h, key) == Some(Replay(h).table[key])
  {
    if h != [] && h[|h| - 1].key != key {
      CachedIsNewest(h[..|h| - 1], key);
    }
  }

  ghost function LookupSpec<K, V>(c: Cache<K, V>, key: K): Option<V> {
    if key in c.table then Some(c.table[key]) else None
  }

  /** A lookup finds exactly the keys among the last 256 insertions, and answers with the newest payload sent under them. */
  lemma {:induction false} LookupIff<K, V>(h: seq<Sent<K, V>>, key: K)
    ensures LookupSpec(Replay(h), key) ==
            if key in Last(Insertions(h), RECENT_MESSAGES_SIZE) then Newest(h, key) else None
  {
    OrderIsLastInsertions(h);
    ReplayConsistent(h);
    if key in Replay(h).table {
      CachedIsNewest(h, key);
    }
  }

  lemma {:induction false} InsertionsExtend<K, V>(h: seq<Sent<K, V>>, rest: seq<Sent<K, V>>)
    ensures Insertions(h) <= Insertions(h + rest)
  {
    if rest == [] {
      assert h + rest == h;
    } else {
      assert (h + rest)[..|h + rest| - 1] == h + rest[..|rest| - 1];
      InsertionsExtend(h, rest[..|rest| - 1]);
    }
  }

  /** The keys inserted by `rest` when it follows h. */
  ghost function InsertedBy<K, V>(h: seq<Sent<K, V>>, rest: seq<Sent<K, V>>): (since: seq<K>)
    ensures Insertions(h + rest) == Insertions(h) + since
  {
    InsertionsExtend(h, rest);
    Insertions(h + rest)[|Insertions(h)|..]
  }

  /**
   A message cached under a new key is found until 256 further keys were inserted, and not afterwards unless it was
   inserted again.
   */
  lemma {:induction false} StaysForTheWindow<K, V>(h: seq<Sent<K, V>>, sent: Sent<K, V>, rest: seq<Sent<K, V>>)
    requires sent.key !in Replay(h).table
    ensures var since := InsertedBy(h + [sent], rest);
            LookupSpec(Replay(h + [sent] + rest), sent.key) ==
            if |since| < RECENT_MESSAGES_SIZE || sent.key in Last(since, RECENT_MESSAGES_SIZE)
            then Newest(h + [sent] + rest, sent.key) else None
  {
    assert (h + [sent])[..|h|] == h;
    assert Insertions(h + [sent]) == Insertions(h) + [sent.key];
    var since := InsertedBy(h + [sent], rest);
    var last := Last(Insertions(h) + [sent.key] + since, RECENT_MESSAGES_SIZE);
    LookupIff(h + [sent] + rest, sent.key);
    if |since| < RECENT_MESSAGES_SIZE {
      assert last[|last| - |since| - 1] == sent.key;
    } else {
      assert last == Last(since, RECENT_MESSAGES_SIZE);
    }
  }

  /** Sending again under the oldest key of a full cache does not renew its slot: the next new key evicts it. */
  lemma {:induction false} ResendDoesNotRenew<K, V>(c: Cache<K, V>, payload: V, key: K, other: V)
    requires Consistent(c) && |c.order| == RECENT_MESSAGES_SIZE && key !in c.table
    ensures LookupSpec(AddSpec(AddSpec(c, c.order[0], payload), key, other), c.order[0]) == None
  {
  }

  // ---------- the map and the ring ----------

  /** The ring read from its oldest slot. */
  ghost function Unrolled<K>(list: seq<K>, ptr: nat): seq<K>
    requires ptr <= |list|
  {
    list[ptr..] + list[..ptr]
  }

  /** Overwriting the oldest slot and advancing drops the oldest key and appends the new one. */
  lemma {:induction false} RingShift<K>(list: seq<K>, ptr: nat, key: K)
    requires |list| == RECENT_MESSAGES_SIZE && ptr < |list|
    ensures Unrolled(list[ptr := key], (ptr + 1) % RECENT_MESSAGES_SIZE) == Unrolled(list, ptr)[1..] + [key]
    ensures Unrolled(list, ptr)[0] == list[ptr]
  {
  }

  class Ring<K(==), V> {
    var table: map<K, V>
    var list: seq<K>
    var ptr: nat

    ghost predicate Shaped()
      reads this
    {
      |list| <= RECENT_MESSAGES_SIZE && ptr < RECENT_MESSAGES_SIZE && (|list| < RECENT_MESSAGES_SIZE ==> ptr == 0)
    }

    ghost function Contents(): Cache<K, V>
      requires Shaped()
      reads this
    {
      Cache(Unrolled(list, ptr), table)
    }

    ghost predicate Valid()
      reads this
    {
      Shaped() && Consistent(Contents())
    }

    constructor ()
      ensures Valid() && Contents() == Replay([])
    {
      table, list, ptr := map[], [], 0;
    }

    method AddRecentMessage(key: K, payload: V)
      requires Valid()
      modifies this
      ensures Valid() && Contents() == AddSpec(old(Contents()), key, payload)
    {
      AddKeepsConsistent(Contents(), key, payload);
      Store(key, payload);
    }

    /** The body of the critical section; that the cache stays consistent follows from what it computes. */
    method Store(key: K, payload: V)
      requires Shaped()
      modifies this
      ensures Shaped() && Contents() == AddSpec(old(Contents()), key, payload)
    {
      if key in table {
        table := table[key := payload];
        return;
      }
      if |list| < RECENT_MESSAGES_SIZE {
        assert Unrolled(list + [key], 0) == Unrolled(list, 0) + [key];
        list := list + [key];
      } else {
        RingShift(list, ptr, key);
        table := table - {list[ptr]};
        list := list[ptr := key];
        ptr := (ptr + 1) % RECENT_MESSAGES_SIZE;
      }
      table := table[key := payload];
    }

    method GetRecentMessage(key: K) returns (r: Option<V>)
      requires Valid()
      ensures r == LookupSpec(Contents(), key)
      ensures r.Some? <==> key in Contents().order
    {
      r := if key in table then Some(table[key]) else None;
    }
  }
}
