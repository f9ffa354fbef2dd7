/**
 The life of one message that cannot be decrypted (sendRetryReceipt, retry.go): each retry receipt makes the sender send
 it again. The counter table is lost in restarts and cleared every hour; the count in the stanza is meant to make up for
 that, and does exactly if it can be read.
 */
module RetryChain {
  import opened Prelude
  import opened RetryWindow

  datatype Chain<K> = Chain(table: Table<K>, sent: seq<nat>)

  datatype Action<K> =
    | Failed(now: int, children: seq<Child>)   // the message came, in a stanza with these children, and could not be decrypted
    | Other(r: Request<K>)                     // the counter is used for another message
    | Restart

  ghost function Next<K>(c: Chain<K>, key: K, a: Action<K>): Chain<K> {
    match a
    case Failed(now, children) =>
      var r := Request(key, now, CountInMessage(children));
      Chain(Step(c.table, r),
            if Accepted(c.table, r, RECEIPT_CUTOFF) then c.sent + [NextCount(Refreshed(c.table, now), r)] else c.sent)
    case Other(r) => if r.key == key then c else c.(table := Step(c.table, r))
    case Restart => c.(table := Table(map[], None))
  }

  ghost function Run<K>(key: K, actions: seq<Action<K>>): Chain<K> {
    if actions == [] then Chain(Table(map[], None), [])
    else Next(Run(key, actions[..|actions| - 1]), key, actions[|actions| - 1])
  }

  /** The receipts count 1, 2, 3, 4 and stop. */
  ghost predicate CountsUp(sent: seq<nat>) {
    |sent| < RECEIPT_CUTOFF && forall i :: 0 <= i < |sent| ==> sent[i] == i + 1
  }

  /** The table has forgotten the message, agrees with the receipts sent, or has given up. */
  ghost predicate Inv<K>(c: Chain<K>, key: K) {
    CountsUp(c.sent) && (key in c.table.counters ==> c.table.counters[key] == |c.sent| > 0 || c.table.counters[key] >= RECEIPT_CUTOFF)
  }

  /** The table does not know the message, and has room to count it from the start. */
  ghost predicate Forgotten<K>(t: Table<K>, key: K, now: int) {
    var u := Refreshed(t, now);
    key !in u.counters && HasRoom(u, key)
  }

  /** A forgotten message says how many receipts it had, or that there were enough of them. */
  ghost predicate Reminds<K>(c: Chain<K>, key: K, a: Action<K>) {
    a.Failed? && Forgotten(c.table, key, a.now) ==>
      var count := CountInMessage(a.children);
      count >= RECEIPT_CUTOFF - 1 || count == |c.sent| || (count < 0 && c.sent == [])
  }

  /** A step goes on counting exactly if a forgotten message reminds of its count. */
  lemma {:induction false} StepCountsUpIff<K>(c: Chain<K>, key: K, a: Action<K>)
    requires Inv(c, key)
    ensures CountsUp(Next(c, key, a).sent) <==> Reminds(c, key, a)
    ensures Reminds(c, key, a) ==> Inv(Next(c, key, a), key)
  {
    if a.Failed? {
      FailedCountsUpIff(c, key, a.now, CountInMessage(a.children));
    }
  }

  lemma {:induction false} FailedCountsUpIff<K>(c: Chain<K>, key: K, now: int, count: int)
    requires Inv(c, key)
    ensures var r := Request(key, now, count);
            var u, n := Refreshed(c.table, now), |c.sent|;
            var next := if Accepted(c.table, r, RECEIPT_CUTOFF) then c.sent + [NextCount(u, r)] else c.sent;
            var reminds := Forgotten(c.table, key, now) ==> count >= RECEIPT_CUTOFF - 1 || count == n || (count < 0 && n == 0);
            (CountsUp(next) <==> reminds) && (reminds ==> Inv(Chain(Step(c.table, r), next), key))
  {
    var r := Request(key, now, count);
    var u, n := Refreshed(c.table, now), |c.sent|;
    if HasRoom(u, key) {
      var m := NextCount(u, r);
      assert key in u.counters ==> m == n + 1 || m > RECEIPT_CUTOFF;
      assert key !in u.counters ==> m == if count > 0 then count + 1 else 1;
      assert CountsUp(c.sent + [m]) <==> m == n + 1 && n + 1 < RECEIPT_CUTOFF by {
        assert (c.sent + [m])[n] == m;
      }
    }
  }

  lemma {:induction false} SentGrows<K>(c: Chain<K>, key: K, a: Action<K>)
    requires !CountsUp(c.sent)
    ensures !CountsUp(Next(c, key, a).sent)
  {
    var t := Next(c, key, a);
    assert |t.sent| >= |c.sent| && forall i :: 0 <= i < |c.sent| ==> t.sent[i] == c.sent[i];
  }

  /** Step number i reminds of the count, if it has to. */
  ghost predicate RemindsAt<K>(key: K, actions: seq<Action<K>>, i: nat)
    requires i < |actions|
  {
    Reminds(Run(key, actions[..i]), key, actions[i])
  }

  /**
   Through any restarts, window resets and other messages, the receipts count 1, 2, 3, 4 and stop exactly if every time
   the message is forgotten the next stanza reminds of the count.
   */
  lemma {:induction false} CountsUpIff<K>(key: K, actions: seq<Action<K>>)
    ensures CountsUp(Run(key, actions).sent) <==> forall i :: 0 <= i < |actions| ==> RemindsAt(key, actions, i)
    ensures CountsUp(Run(key, actions).sent) ==> Inv(Run(key, actions), key)
  {
    if actions != [] {
      var n := |actions| - 1;
      var front := actions[..n];
      CountsUpIff(key, front);
      forall i | 0 <= i < n ensures RemindsAt(key, actions, i) <==> RemindsAt(key, front, i) {
        assert front[..i] == actions[..i];
      }
      if CountsUp(Run(key, front).sent) {
        StepCountsUpIff(Run(key, front), key, actions[n]);
        assert RemindsAt(key, actions, n) <==> Reminds(Run(key, front), key, actions[n]);
      } else {
        SentGrows(Run(key, front), key, actions[n]);
      }
    }
  }

  /** The sender's answer to a receipt, alone in its stanza, carries the count of that receipt. */
  ghost predicate Answers<K>(c: Chain<K>, a: Action<K>) {
    a.Failed? ==> CountInMessage(a.children) == |c.sent|
  }

  ghost predicate AnswersAt<K>(key: K, actions: seq<Action<K>>, i: nat)
    requires i < |actions|
  {
    Answers(Run(key, actions[..i]), actions[i])
  }

  /** If every stanza can be read and carries the count of the last receipt, at most four receipts go out. */
  lemma {:induction false} AtMostFourReceipts<K>(key: K, actions: seq<Action<K>>)
    requires forall i :: 0 <= i < |actions| ==> AnswersAt(key, actions, i)
    ensures var sent := Run(key, actions).sent; |sent| <= 4 && forall i :: 0 <= i < |sent| ==> sent[i] == i + 1
  {
    forall i | 0 <= i < |actions| ensures RemindsAt(key, actions, i) {
      assert AnswersAt(key, actions, i);
    }
    CountsUpIff(key, actions);
  }

  // ---------- stanzas whose count cannot be read ----------

  /** A stanza like the ones this client sends again with a second child, whatever the count of its payload. */
  function TwoChildren(count: int, second: string): seq<Child> { [Child("enc", count), Child(second, 0)] }

  /** The message fails, and the client restarts, n times. */
  ghost function FailAndRestart<K>(now: int, count: int, second: string, n: nat): seq<Action<K>> {
    if n == 0 then [] else FailAndRestart(now, count, second, n - 1) + [Failed(now, TwoChildren(count, second))] + [Restart]
  }

  /** Whatever count they carry, stanzas with a second child get a first receipt after every restart. */
  lemma {:induction false} RestartsBeginAgain<K>(key: K, now: int, count: int, second: string, n: nat)
    ensures Run(key, FailAndRestart(now, count, second, n)) == Chain(Table(map[], None), seq(n, _ => 1))
  {
    if n > 0 {
      RestartsBeginAgain(key, now, count, second, n - 1);
      var front: seq<Action<K>> := FailAndRestart(now, count, second, n - 1);
      var c, failed := Run(key, front), Failed(now, TwoChildren(count, second));
      RunSnoc(key, front, failed);
      RunSnoc(key, front + [failed], Restart);
      assert Next(c, key, failed).sent == c.sent + [1];
      assert seq(n - 1, _ => 1) + [1] == seq(n, _ => 1);
    }
  }

  lemma {:induction false} RunSnoc<K>(key: K, actions: seq<Action<K>>, a: Action<K>)
    ensures Run(key, actions + [a]) == Next(Run(key, actions), key, a)
  {
    assert (actions + [a])[..|actions|] == actions;
  }
}
