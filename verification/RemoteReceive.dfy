/**
 decryptMessagesRemote (remote_signal.go): every <enc> child goes to the remote store, and the stanza is answered at
 most once.
 */
module RemoteReceive {
  import opened Prelude

  /** The values of the type attribute the client knows, and every other one. */
  datatype EncType = PkMsg | Msg | SkMsg | MsMsg | Other(name: string)

  /** A child of the message node: its tag, its type attribute and whether its content is bytes. */
  datatype Child = Child(isEnc: bool, encType: Option<EncType>, hasBytes: bool)

  /** What Receive answers; `Failed` is any other decryption failure. */
  datatype Answer =
    | Received(alreadyDelivered: bool)
    | OldCounter
    | Undecodable
    | Outage                                    // not a decryption error: the payload may never have arrived
    | Failed(noSenderKey: bool, cancelled: bool)

  const NACK_UNRECOGNIZED_STANZA := 488
  const NACK_INVALID_PROTOBUF := 491
  const NACK_MISSING_MESSAGE_SECRET := 495

  datatype Reply = Receipt | Nack(code: int) | RetryReceipt(unavailable: bool) | Ack

  // ---------- reading a child ----------

  predicate IsDirect(c: Child) { c.isEnc && (c.encType == Some(PkMsg) || c.encType == Some(Msg)) }

  predicate IsSecret(c: Child) { c.isEnc && c.encType == Some(MsMsg) }

  /** Handed to the remote store. */
  predicate IsPayload(c: Child, isGroup: bool) {
    (IsDirect(c) || (c.isEnc && c.encType == Some(SkMsg) && isGroup)) && c.hasBytes
  }

  /** Ends the loop with whatever reply is due. */
  predicate Halts(c: Child, a: Answer, isGroup: bool) {
    IsSecret(c) || (IsPayload(c, isGroup) && (a.Outage? || a.Failed?))
  }

  /** The first child that ends the loop, or the number of children. */
  function FirstHalt(cs: seq<Child>, answers: seq<Answer>, isGroup: bool): (k: nat)
    requires |cs| == |answers|
    ensures k <= |cs|
    ensures forall i :: 0 <= i < k ==> !Halts(cs[i], answers[i], isGroup)
    ensures k < |cs| ==> Halts(cs[k], answers[k], isGroup)
  {
    if cs == [] then 0
    else if Halts(cs[0], answers[0], isGroup) then 0
    else 1 + FirstHalt(cs[1..], answers[1..], isGroup)
  }

  /** The last payload that was either received or found undecodable was undecodable. */
  function EndsUndecodable(cs: seq<Child>, answers: seq<Answer>, isGroup: bool): bool
    requires |cs| == |answers|
  {
    if cs == [] then false
    else
      var n := |cs| - 1;
      if IsPayload(cs[n], isGroup) && answers[n].Undecodable? then true
      else if IsPayload(cs[n], isGroup) && answers[n].Received? then false
      else EndsUndecodable(cs[..n], answers[..n], isGroup)
  }

  /** The replies, read off the first halting child. */
  function Replies(cs: seq<Child>, answers: seq<Answer>, isGroup: bool): seq<Reply>
    requires |cs| == |answers|
  {
    var k := FirstHalt(cs, answers, isGroup);
    if k < |cs| then
      if IsSecret(cs[k]) then [Nack(NACK_MISSING_MESSAGE_SECRET)]
      else if answers[k].Outage? || answers[k].cancelled then []
      else [RetryReceipt(cs[k].encType == Some(SkMsg) && answers[k].noSenderKey && forall i :: 0 <= i < k ==> !IsDirect(cs[i])), Ack]
    else if forall i :: 0 <= i < |cs| ==> !cs[i].isEnc then [Nack(NACK_UNRECOGNIZED_STANZA)]
    else if EndsUndecodable(cs, answers, isGroup) then [Nack(NACK_INVALID_PROTOBUF)]
    else [Receipt]
  }

  /** The children handed to the remote store: the payloads up to and including the one that ends the loop. */
  predicate Asked(cs: seq<Child>, answers: seq<Answer>, isGroup: bool, i: nat)
    requires |cs| == |answers|
  {
    i < |cs| && i <= FirstHalt(cs, answers, isGroup) && IsPayload(cs[i], isGroup)
  }

  // ---------- the loop ----------

  /** The flags the loop keeps, read off the children it has passed. */
  ghost predicate Scanned(cs: seq<Child>, answers: seq<Answer>, isGroup: bool, i: nat,
                          recognizedStanza: bool, undecodable: bool, containsDirectMsg: bool)
    requires |cs| == |answers| && i <= |cs|
  {
    && i <= FirstHalt(cs, answers, isGroup)
    && (recognizedStanza <==> exists j :: 0 <= j < i && cs[j].isEnc)
    && (containsDirectMsg <==> exists j :: 0 <= j < i && IsDirect(cs[j]))
    && undecodable == EndsUndecodable(cs[..i], answers[..i], isGroup)
  }

  lemma {:induction false} ScannedNext(cs: seq<Child>, answers: seq<Answer>, isGroup: bool, i: nat,
                                       recognizedStanza: bool, undecodable: bool, containsDirectMsg: bool)
    requires |cs| == |answers| && i < |cs|
    requires Scanned(cs, answers, isGroup, i, recognizedStanza, undecodable, containsDirectMsg)
    requires !Halts(cs[i], answers[i], isGroup)
    ensures var payload := IsPayload(cs[i], isGroup);
            Scanned(cs, answers, isGroup, i + 1, recognizedStanza || cs[i].isEnc,
                    (payload && answers[i].Undecodable?) || (!(payload && answers[i].Received?) && undecodable),
                    containsDirectMsg || IsDirect(cs[i]))
  {
    assert cs[..i + 1][..i] == cs[..i] && answers[..i + 1][..i] == answers[..i];
  }

  /** The messages handed to the event handlers among the first i children, in order. */
  function Deliveries(cs: seq<Child>, answers: seq<Answer>, isGroup: bool, i: nat): (d: seq<nat>)
    requires |cs| == |answers| && i <= |cs|
  {
    if i == 0 then []
    else
      var d := Deliveries(cs, answers, isGroup, i - 1);
      if IsPayload(cs[i - 1], isGroup) && answers[i - 1].Received? && !answers[i - 1].alreadyDelivered then d + [i - 1] else d
  }

  method DecryptMessagesRemote(cs: seq<Child>, answers: seq<Answer>, isGroup: bool)
    returns (replies: seq<Reply>, delivered: seq<nat>)
    requires |cs| == |answers|
    ensures replies == Replies(cs, answers, isGroup)
    ensures delivered == Deliveries(cs, answers, isGroup, FirstHalt(cs, answers, isGroup))
  {
    var recognizedStanza, undecodable, containsDirectMsg := false, false, false;
    delivered := [];
    for i := 0 to |cs|
      invariant Scanned(cs, answers, isGroup, i, recognizedStanza, undecodable, containsDirectMsg)
      invariant delivered == Deliveries(cs, answers, isGroup, i)
    {
      var c, a := cs[i], answers[i];
      if !Halts(c, a, isGroup) {
        ScannedNext(cs, answers, isGroup, i, recognizedStanza, undecodable, containsDirectMsg);
      }
      if !c.isEnc {
        continue;
      }
      recognizedStanza := true;
      if c.encType.None? {
        continue;
      }
      var encType := c.encType.value;
      if encType == PkMsg || encType == Msg {
        containsDirectMsg := true;
      } else if encType == SkMsg && isGroup {
      } else if encType == MsMsg {
        return [Nack(NACK_MISSING_MESSAGE_SECRET)], delivered;
      } else {
        continue;
      }
      if !c.hasBytes {
        continue;
      }
      match a
      case Received(already) =>
        undecodable := false;
        if !already {
          delivered := delivered + [i];
        }
      case OldCounter =>
      case Undecodable => undecodable := true;
      case Outage => return [], delivered;
      case Failed(noSenderKey, cancelled) =>
        if cancelled {
          return [], delivered;
        }
        return [RetryReceipt(encType == SkMsg && !containsDirectMsg && noSenderKey), Ack], delivered;
    }
    assert cs[..|cs|] == cs && answers[..|cs|] == answers;
    replies := if !recognizedStanza then [Nack(NACK_UNRECOGNIZED_STANZA)]
    else if undecodable then [Nack(NACK_INVALID_PROTOBUF)]
    else [Receipt];
  }

  // ---------- what the sender is told ----------

  /** At most one terminal reply: a receipt, a nack, or a retry receipt with its ack. */
  lemma {:induction false} AtMostOneTerminalReply(cs: seq<Child>, answers: seq<Answer>, isGroup: bool)
    requires |cs| == |answers|
    ensures var r := Replies(cs, answers, isGroup);
            || r == [] || r == [Receipt] || (|r| == 1 && r[0].Nack?) || (|r| == 2 && r[0].RetryReceipt? && r[1] == Ack)
  {
  }

  /** An outage met by any payload that was asked about silences the whole call, and nothing else but cancellation does. */
  lemma {:induction false} SilentIff(cs: seq<Child>, answers: seq<Answer>, isGroup: bool)
    requires |cs| == |answers|
    ensures Replies(cs, answers, isGroup) == [] <==>
            exists i: nat :: Asked(cs, answers, isGroup, i) && (answers[i].Outage? || (answers[i].Failed? && answers[i].cancelled))
  {
  }

  /** A message is handed to the handlers exactly if it was asked about, received, and not delivered before. */
  lemma {:induction false} DeliveredIff(cs: seq<Child>, answers: seq<Answer>, isGroup: bool, n: nat, i: nat)
    requires |cs| == |answers| && n <= |cs|
    ensures i in Deliveries(cs, answers, isGroup, n) <==>
            i < n && IsPayload(cs[i], isGroup) && answers[i].Received? && !answers[i].alreadyDelivered
  {
    if n > 0 {
      DeliveredIff(cs, answers, isGroup, n - 1, i);
    }
  }

  ghost predicate Increasing(d: seq<nat>, bound: nat) {
    && (forall j :: 0 <= j < |d| ==> d[j] < bound)
    && (forall j, k :: 0 <= j < k < |d| ==> d[j] < d[k])
  }

  /** No message is handed over twice, and they come in stanza order. */
  lemma {:induction false} DeliveredInOrder(cs: seq<Child>, answers: seq<Answer>, isGroup: bool, n: nat)
    requires |cs| == |answers| && n <= |cs|
    ensures Increasing(Deliveries(cs, answers, isGroup, n), n)
  {
    if n > 0 {
      DeliveredInOrder(cs, answers, isGroup, n - 1);
      var d := Deliveries(cs, answers, isGroup, n - 1);
      assert Increasing(d + [n - 1], n) by {
        assert forall j :: 0 <= j < |d| ==> (d + [n - 1])[j] == d[j];
      }
    }
  }

  /**
   A receipt is sent exactly if the stanza has an <enc> child, no bot secret, every payload was received, outdated or
   undecodable, and the last decisive one was received.
   */
  lemma {:induction false} ReceiptIff(cs: seq<Child>, answers: seq<Answer>, isGroup: bool)
    requires |cs| == |answers|
    ensures Receipt in Replies(cs, answers, isGroup) <==>
            && (exists i :: 0 <= i < |cs| && cs[i].isEnc)
            && (forall i :: 0 <= i < |cs| ==> !IsSecret(cs[i]))
            && (forall i :: 0 <= i < |cs| && IsPayload(cs[i], isGroup) ==> !answers[i].Outage? && !answers[i].Failed?)
            && !EndsUndecodable(cs, answers, isGroup)
  {
  }
}
