/**
 The bounded, windowed counters that limit retry traffic (cache.go, retry.go): requests from other devices for messages
 sent by this one, and retry receipts sent for messages that could not be decrypted.
 */
module RetryWindow {
  import opened Prelude

  const WINDOW: int := 3_600_000_000_000 // one hour in nanoseconds
  const MAX_ENTRIES: nat := 1024
  const INCOMING_CUTOFF: nat := 10
  const RECEIPT_CUTOFF: nat := 5

  datatype Table<K> = Table(counters: map<K, nat>, resetAt: Option<int>)

  /** A request to be counted; `carried` is the retry count inside the message, or 0. */
  datatype Request<K> = Request(key: K, now: int, carried: int)

  /** A child of a message stanza: its tag and its count attribute, 0 if it has none. */
  datatype Child = Child(tag: string, count: int)

  /** The retry count is read off an encrypted payload only if that is the stanza's only child. */
  function CountInMessage(children: seq<Child>): int {
    if |children| == 1 && children[0].tag == "enc" then children[0].count else 0
  }

  // ---------- one step ----------

  predicate Expired<K>(t: Table<K>, now: int) {
    t.resetAt.None? || now - t.resetAt.value >= WINDOW
  }

  ghost function Refreshed<K>(t: Table<K>, now: int): Table<K> {
    if Expired(t, now) then Table(map[], Some(now)) else t
  }

  ghost predicate HasRoom<K>(t: Table<K>, key: K) {
    key in t.counters || |t.counters| < MAX_ENTRIES
  }

  ghost function CountOf<K>(t: Table<K>, key: K): nat {
    if key in t.counters then t.counters[key] else 0
  }

  /** The count under which a request is recorded: one more than before, or one more than a first message carried. */
  ghost function NextCount<K>(t: Table<K>, r: Request<K>): nat {
    var c := CountOf(t, r.key) + 1;
    if c == 1 && r.carried > 0 then r.carried + 1 else c
  }

  ghost function Step<K>(t: Table<K>, r: Request<K>): Table<K> {
    var u := Refreshed(t, r.now);
    if HasRoom(u, r.key) then u.(counters := u.counters[r.key := NextCount(u, r)]) else u
  }

  ghost predicate Accepted<K>(t: Table<K>, r: Request<K>, cutoff: nat) {
    var u := Refreshed(t, r.now);
    HasRoom(u, r.key) && NextCount(u, r) < cutoff
  }

  // ---------- runs ----------

  ghost predicate Monotone<K>(h: seq<Request<K>>) {
    forall i, j :: 0 <= i < j < |h| ==> h[i].now <= h[j].now
  }

  /** The table before request i. */
  ghost function At<K>(h: seq<Request<K>>, i: nat): Table<K>
    requires i <= |h|
  {
    if i == 0 then Table(map[], None) else Step(At(h, i - 1), h[i - 1])
  }

  ghost predicate ResetsAt<K>(h: seq<Request<K>>, i: nat)
    requires i < |h|
  {
    Expired(At(h, i), h[i].now)
  }

  /** How many of the requests lo .. hi - 1 were accepted, for one key or for all. */
  ghost function AcceptedFor<K>(h: seq<Request<K>>, lo: nat, hi: nat, key: K, cutoff: nat): nat
    requires lo <= hi <= |h|
    decreases hi
  {
    if lo == hi then 0
    else AcceptedFor(h, lo, hi - 1, key, cutoff)
         + if h[hi - 1].key == key && Accepted(At(h, hi - 1), h[hi - 1], cutoff) then 1 else 0
  }

  ghost function AcceptedInAll<K>(h: seq<Request<K>>, lo: nat, hi: nat, cutoff: nat): nat
    requires lo <= hi <= |h|
    decreases hi
  {
    if lo == hi then 0
    else AcceptedInAll(h, lo, hi - 1, cutoff) + if Accepted(At(h, hi - 1), h[hi - 1], cutoff) then 1 else 0
  }

  lemma {:induction false} AcceptedSplit<K>(h: seq<Request<K>>, lo: nat, mid: nat, hi: nat, key: K, cutoff: nat)
    requires lo <= mid <= hi <= |h|
    ensures AcceptedFor(h, lo, hi, key, cutoff) == AcceptedFor(h, lo, mid, key, cutoff) + AcceptedFor(h, mid, hi, key, cutoff)
    ensures AcceptedInAll(h, lo, hi, cutoff) == AcceptedInAll(h, lo, mid, cutoff) + AcceptedInAll(h, mid, hi, cutoff)
    decreases hi
  {
    if mid < hi {
      AcceptedSplit(h, lo, mid, hi - 1, key, cutoff);
    }
  }

  /** The table never exceeds its capacity. */
  lemma {:induction false} TableIsBounded<K>(h: seq<Request<K>>, i: nat)
    requires i <= |h|
    ensures |At(h, i).counters| <= MAX_ENTRIES
  {
    if i > 0 {
      TableIsBounded(h, i - 1);
      var u := Refreshed(At(h, i - 1), h[i - 1].now);
      var key := h[i - 1].key;
      if HasRoom(u, key) {
        SizeAfterUpdate(u.counters, key, NextCount(u, h[i - 1]));
      }
    }
  }

  lemma {:induction false} SizeAfterUpdate<K>(m: map<K, nat>, key: K, v: nat)
    ensures |m[key := v]| == if key in m then |m| else |m| + 1
  {
  }

  // ---------- one stretch without a reset ----------

  /** No reset strictly inside the stretch; its first request may be one. */
  ghost predicate Quiet<K>(h: seq<Request<K>>, lo: nat, hi: nat)
    requires lo <= hi <= |h|
  {
    forall i :: lo < i < hi ==> !ResetsAt(h, i)
  }

  lemma {:induction false} StretchPerKey<K>(h: seq<Request<K>>, lo: nat, hi: nat, key: K, cutoff: nat)
    requires lo <= hi <= |h| && Quiet(h, lo, hi)
    requires cutoff > 0
    ensures AcceptedFor(h, lo, hi, key, cutoff) < cutoff
    ensures lo < hi ==> AcceptedFor(h, lo, hi, key, cutoff) <= CountOf(At(h, hi), key)
    decreases hi
  {
    if lo < hi {
      StretchPerKey(h, lo, hi - 1, key, cutoff);
      if lo < hi - 1 {
        assert !ResetsAt(h, hi - 1);
      }
    }
  }

  ghost function Cap(n: nat, cutoff: nat): nat
    requires cutoff > 0
  {
    if n < cutoff then n else cutoff - 1
  }

  /** The counters summed, each capped below the cutoff. */
  ghost function Total<K>(m: map<K, nat>, cutoff: nat): nat
    requires cutoff > 0
    decreases |m|
  {
    if m == map[] then 0
    else
      var k :| k in m;
      Total(m - {k}, cutoff) + Cap(m[k], cutoff)
  }

  lemma {:induction false} TotalUnfold<K>(m: map<K, nat>, cutoff: nat) returns (c: K)
    requires cutoff > 0 && m != map[]
    ensures c in m && Total(m, cutoff) == Total(m - {c}, cutoff) + Cap(m[c], cutoff)
  {
    c :| c in m && Total(m, cutoff) == Total(m - {c}, cutoff) + Cap(m[c], cutoff);
  }

  /** Any key can be taken out first. */
  lemma {:induction false} TotalPick<K>(m: map<K, nat>, k: K, cutoff: nat)
    requires cutoff > 0 && k in m
    ensures Total(m, cutoff) == Total(m - {k}, cutoff) + Cap(m[k], cutoff)
    decreases |m|
  {
    var c := TotalUnfold(m, cutoff);
    if c != k {
      var withoutC, withoutK := m - {c}, m - {k};
      assert withoutC - {k} == withoutK - {c};
      SizeWithout(m, c);
      SizeWithout(m, k);
      TotalPick(withoutC, k, cutoff);
      TotalPick(withoutK, c, cutoff);
    }
  }

  lemma {:induction false} SizeWithout<K>(m: map<K, nat>, k: K)
    requires k in m
    ensures |m - {k}| == |m| - 1
  {
  }

  lemma {:induction false} TotalIsBounded<K>(m: map<K, nat>, cutoff: nat)
    requires cutoff > 0
    ensures Total(m, cutoff) <= |m| * (cutoff - 1)
    decreases |m|
  {
    if m != map[] {
      var c := TotalUnfold(m, cutoff);
      SizeWithout(m, c);
      TotalIsBounded(m - {c}, cutoff);
      TimesStep(|m|, cutoff - 1);
    }
  }

  lemma {:induction false} TimesStep(n: nat, c: nat)
    requires n > 0
    ensures n * c == (n - 1) * c + c
  {
  }

  lemma {:induction false} TotalAfterUpdate<K>(m: map<K, nat>, k: K, v: nat, cutoff: nat)
    requires cutoff > 0
    ensures Total(m[k := v], cutoff) == Total(m - {k}, cutoff) + Cap(v, cutoff)
    ensures k in m ==> Total(m, cutoff) == Total(m - {k}, cutoff) + Cap(m[k], cutoff)
    ensures k !in m ==> Total(m, cutoff) == Total(m - {k}, cutoff)
  {
    TotalPick(m[k := v], k, cutoff);
    assert m[k := v] - {k} == m - {k};
    if k in m {
      TotalPick(m, k, cutoff);
    } else {
      assert m - {k} == m;
    }
  }

  /** Every accepted request raises the capped total of the refreshed table; no request lowers it. */
  lemma {:induction false} StepRaisesTotal<K>(t: Table<K>, r: Request<K>, cutoff: nat)
    requires cutoff > 0
    ensures Total(Step(t, r).counters, cutoff)
            >= Total(Refreshed(t, r.now).counters, cutoff) + if Accepted(t, r, cutoff) then 1 else 0
  {
    var u := Refreshed(t, r.now);
    if HasRoom(u, r.key) {
      TotalAfterUpdate(u.counters, r.key, NextCount(u, r), cutoff);
    }
  }

  lemma {:induction false} StretchInAll<K>(h: seq<Request<K>>, lo: nat, hi: nat, cutoff: nat)
    requires lo <= hi <= |h| && Quiet(h, lo, hi)
    requires cutoff > 0
    ensures lo < hi ==> AcceptedInAll(h, lo, hi, cutoff) <= Total(At(h, hi).counters, cutoff)
    decreases hi
  {
    if lo < hi {
      StretchInAll(h, lo, hi - 1, cutoff);
      StepRaisesTotal(At(h, hi - 1), h[hi - 1], cutoff);
      if lo < hi - 1 {
        assert !ResetsAt(h, hi - 1);
      }
    }
  }

  lemma {:induction false} StretchIsBounded<K>(h: seq<Request<K>>, lo: nat, hi: nat, cutoff: nat)
    requires lo <= hi <= |h| && Quiet(h, lo, hi)
    requires cutoff > 0
    ensures AcceptedInAll(h, lo, hi, cutoff) <= MAX_ENTRIES * (cutoff - 1)
  {
    StretchInAll(h, lo, hi, cutoff);
    TotalIsBounded(At(h, hi).counters, cutoff);
    TableIsBounded(h, hi);
    TimesIsMonotone(|At(h, hi).counters|, MAX_ENTRIES, cutoff - 1);
    TimesIsMonotone(0, MAX_ENTRIES, cutoff - 1);
  }

  lemma {:induction false} TimesIsMonotone(a: nat, b: nat, c: nat)
    requires a <= b
    ensures a * c <= b * c
  {
  }

  // ---------- any interval shorter than the window ----------

  lemma {:induction false} ResetIsRemembered<K>(h: seq<Request<K>>, r: nat, i: nat)
    requires r < i <= |h| && Monotone(h) && ResetsAt(h, r)
    ensures At(h, i).resetAt.Some? && h[r].now <= At(h, i).resetAt.value
    decreases i
  {
    if r < i - 1 {
      ResetIsRemembered(h, r, i - 1);
    }
  }

  /** Resets are at least a window apart. */
  lemma {:induction false} ResetsAreApart<K>(h: seq<Request<K>>, r: nat, s: nat)
    requires r < s < |h| && Monotone(h) && ResetsAt(h, r) && ResetsAt(h, s)
    ensures h[s].now - h[r].now >= WINDOW
  {
    ResetIsRemembered(h, r, s);
  }

  /** The requests lo .. hi - 1 lie within less than a window. */
  ghost predicate WithinWindow<K>(h: seq<Request<K>>, lo: nat, hi: nat)
    requires lo <= hi <= |h|
  {
    lo < hi ==> h[hi - 1].now - h[lo].now < WINDOW
  }

  /** At most one reset happens within a window, so the interval falls into two quiet stretches. */
  lemma {:induction false} SplitAtReset<K>(h: seq<Request<K>>, lo: nat, hi: nat) returns (mid: nat)
    requires lo <= hi <= |h| && Monotone(h) && WithinWindow(h, lo, hi)
    ensures lo <= mid <= hi && Quiet(h, lo, mid) && Quiet(h, mid, hi)
  {
    if r :| lo <= r < hi && ResetsAt(h, r) {
      mid := r;
      forall i | lo <= i < hi && i != r
        ensures !ResetsAt(h, i)
      {
        if ResetsAt(h, i) {
          assert h[lo].now <= h[r].now <= h[hi - 1].now && h[lo].now <= h[i].now <= h[hi - 1].now;
          if i < r {
            ResetsAreApart(h, i, r);
          } else {
            ResetsAreApart(h, r, i);
          }
        }
      }
    } else {
      mid := hi;
    }
  }

  /**
   In any interval shorter than an hour, at most 2 * (cutoff - 1) requests under one key are accepted, and at most
   2 * 1024 * (cutoff - 1) in all.
   */
  lemma {:induction false} AcceptancesAreBounded<K>(h: seq<Request<K>>, lo: nat, hi: nat, key: K, cutoff: nat)
    requires lo <= hi <= |h| && Monotone(h) && WithinWindow(h, lo, hi)
    requires cutoff > 0
    ensures AcceptedFor(h, lo, hi, key, cutoff) <= 2 * (cutoff - 1)
    ensures AcceptedInAll(h, lo, hi, cutoff) <= 2 * (MAX_ENTRIES * (cutoff - 1))
  {
    var mid := SplitAtReset(h, lo, hi);
    AcceptedSplit(h, lo, mid, hi, key, cutoff);
    StretchPerKey(h, lo, mid, key, cutoff);
    StretchPerKey(h, mid, hi, key, cutoff);
    StretchIsBounded(h, lo, mid, cutoff);
    StretchIsBounded(h, mid, hi, cutoff);
  }

  /** For incoming retry requests: 18 per sender and message, 18432 in all. */
  lemma {:induction false} IncomingRetriesAreBounded<K>(h: seq<Request<K>>, lo: nat, hi: nat, key: K)
    requires lo <= hi <= |h| && Monotone(h) && WithinWindow(h, lo, hi)
    ensures AcceptedFor(h, lo, hi, key, INCOMING_CUTOFF) <= 18
    ensures AcceptedInAll(h, lo, hi, INCOMING_CUTOFF) <= 18432
  {
    AcceptancesAreBounded(h, lo, hi, key, INCOMING_CUTOFF);
  }

  // ---------- the bound is reached ----------

  /**
   One request under another key at time 0 opens a window; cutoff - 1 requests come just before it ends and as many
   right when it ends.
   */
  ghost function Straddling<K>(key: K, other: K, cutoff: nat): seq<Request<K>>
    requires cutoff > 0
  {
    seq(2 * cutoff - 1, i => if i == 0 then Request(other, 0, 0)
                             else Request(key, if i < cutoff then WINDOW - 1 else WINDOW, 0))
  }

  /** A request inside the window only raises its own count, and is accepted below the cutoff. */
  lemma {:induction false} StepInside<K>(t: Table<K>, key: K, now: int, cutoff: nat)
    requires !Expired(t, now) && |t.counters| < MAX_ENTRIES
    ensures var r := Request(key, now, 0);
            && Step(t, r) == t.(counters := t.counters[key := CountOf(t, key) + 1])
            && (Accepted(t, r, cutoff) <==> CountOf(t, key) + 1 < cutoff)
  {
  }

  /** A request after the window starts a table of its own. */
  lemma {:induction false} StepExpired<K>(t: Table<K>, key: K, now: int, cutoff: nat)
    requires Expired(t, now)
    ensures var r := Request(key, now, 0);
            && Step(t, r) == Table(Only(key, 1), Some(now))
            && (Accepted(t, r, cutoff) <==> 1 < cutoff)
  {
  }

  ghost function Only<K>(key: K, n: nat): map<K, nat> {
    map[key := n]
  }

  ghost function Opened<K>(key: K, other: K, n: nat): map<K, nat> {
    if n == 0 then map[other := 1] else map[other := 1][key := n]
  }

  lemma {:induction false} OpenedStep<K>(key: K, other: K, n: nat)
    requires key != other
    ensures |Opened(key, other, n)| < MAX_ENTRIES
    ensures CountOf(Table(Opened(key, other, n), Some(0)), key) == n
    ensures Opened(key, other, n)[key := n + 1] == Opened(key, other, n + 1)
  {
  }

  lemma {:induction false} BeforeTheReset<K>(key: K, other: K, cutoff: nat, i: nat)
    requires key != other && 1 <= i <= cutoff
    ensures var h := Straddling(key, other, cutoff);
            && At(h, i) == Table(Opened(key, other, i - 1), Some(0))
            && AcceptedFor(h, 1, i, key, cutoff) == i - 1
  {
    var h := Straddling(key, other, cutoff);
    if i == 1 {
      assert At(h, 0) == Table(map[], None);
    } else {
      BeforeTheReset(key, other, cutoff, i - 1);
      assert h[i - 1] == Request(key, WINDOW - 1, 0);
      OpenedStep(key, other, i - 2);
      StepInside(At(h, i - 1), key, WINDOW - 1, cutoff);
    }
  }

  /** What holds i requests into the second burst. */
  ghost predicate Reopened<K>(h: seq<Request<K>>, key: K, cutoff: nat, i: nat)
    requires cutoff < i <= |h|
  {
    At(h, i) == Table(Only(key, i - cutoff), Some(WINDOW)) && AcceptedFor(h, 1, i, key, cutoff) == i - 1
  }

  lemma {:induction false} AtTheReset<K>(key: K, other: K, cutoff: nat)
    requires key != other && cutoff > 1
    ensures Reopened(Straddling(key, other, cutoff), key, cutoff, cutoff + 1)
  {
    var h := Straddling(key, other, cutoff);
    assert h[cutoff] == Request(key, WINDOW, 0);
    BeforeTheReset(key, other, cutoff, cutoff);
    StepExpired(At(h, cutoff), key, WINDOW, cutoff);
  }

  lemma {:induction false} ReopenedNext<K>(h: seq<Request<K>>, key: K, cutoff: nat, i: nat)
    requires 0 < cutoff < i < |h| && i < 2 * cutoff - 1
    requires Reopened(h, key, cutoff, i) && h[i] == Request(key, WINDOW, 0)
    ensures Reopened(h, key, cutoff, i + 1)
  {
  }

  lemma {:induction false} AfterTheReset<K>(key: K, other: K, cutoff: nat, i: nat)
    requires key != other && 1 < cutoff < i <= 2 * cutoff - 1
    ensures Reopened(Straddling(key, other, cutoff), key, cutoff, i)
  {
    if i == cutoff + 1 {
      AtTheReset(key, other, cutoff);
    } else {
      AfterTheReset(key, other, cutoff, i - 1);
      ReopenedNext(Straddling(key, other, cutoff), key, cutoff, i - 1);
    }
  }

  /** The bound per key is reached: 2 * (cutoff - 1) acceptances within one nanosecond. */
  lemma {:induction false} BoundIsReached<K>(key: K, other: K, cutoff: nat)
    requires key != other && cutoff > 1
    ensures var h := Straddling(key, other, cutoff);
            && Monotone(h) && WithinWindow(h, 1, |h|)
            && AcceptedFor(h, 1, |h|, key, cutoff) == 2 * (cutoff - 1)
  {
    AfterTheReset(key, other, cutoff, 2 * cutoff - 1);
  }

  // ---------- the shared table ----------

  class BoundedCounter<K(==)> {
    var counters: map<K, nat>
    var resetAt: Option<int>

    ghost function T(): Table<K>
      reads this
    {
      Table(counters, resetAt)
    }

    constructor ()
      ensures T() == Table(map[], None)
    {
      counters, resetAt := map[], None;
    }

    method IncrementBoundedCounter(key: K, limit: nat, now: int) returns (count: nat, accepted: bool)
      modifies this
      ensures var u := Refreshed(old(T()), now);
              && resetAt == u.resetAt
              && accepted == (key in u.counters || |u.counters| < limit)
              && count == (if accepted then CountOf(u, key) + 1 else 0)
              && counters == (if accepted then u.counters[key := count] else u.counters)
    {
      if resetAt.None? || now - resetAt.value >= WINDOW {
        counters := map[];
        resetAt := Some(now);
      }
      if key !in counters && |counters| >= limit {
        return 0, false;
      }
      counters := counters[key := (if key in counters then counters[key] else 0) + 1];
      return counters[key], true;
    }

    method AcceptIncomingRetry(key: K, now: int) returns (ok: bool)
      modifies this
      ensures T() == Step(old(T()), Request(key, now, 0))
      ensures ok == Accepted(old(T()), Request(key, now, 0), INCOMING_CUTOFF)
    {
      var internalCounter, accepted := IncrementBoundedCounter(key, MAX_ENTRIES, now);
      ok := accepted && internalCounter < INCOMING_CUTOFF;
    }

    /** The counting part of sendRetryReceipt: whether a retry receipt goes out, and the count it carries. */
    method CountRetryReceipt(key: K, children: seq<Child>, now: int) returns (send: Option<nat>)
      modifies this
      ensures T() == Step(old(T()), Request(key, now, CountInMessage(children)))
      ensures var r := Request(key, now, CountInMessage(children));
              send == if Accepted(old(T()), r, RECEIPT_CUTOFF) then Some(NextCount(Refreshed(old(T()), now), r)) else None
    {
      var retryCountInMsg := 0;
      if |children| == 1 && children[0].tag == "enc" {
        retryCountInMsg := children[0].count;
      }
      var retryCount, accepted := IncrementBoundedCounter(key, MAX_ENTRIES, now);
      if !accepted {
        return None;
      }
      if retryCount == 1 && retryCountInMsg > 0 {
        retryCount := retryCountInMsg + 1;
        counters := counters[key := retryCount];
      }
      send := if retryCount >= RECEIPT_CUTOFF then None else Some(retryCount);
    }
  }
}
