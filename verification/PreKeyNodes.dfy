/**
 Prekeys as binary XML nodes (prekeys.go; child lookup from binary/node.go). The wire carries three bytes of the
 four-byte key id.
 */
module PreKeyNodes {
  import opened Prelude

  datatype Content = Children(nodes: seq<Node>) | Data(bytes: Bytes) | Other

  datatype Node = Node(tag: string, content: Content)

  datatype Key = Key(id: nat, pub: Bytes, signature: Option<Bytes>)

  datatype Error = Missing(tag: string) | NotBytes(tag: string) | WrongLength(tag: string, actual: nat)

  /** The widths the source's types fix. */
  predicate IsKey(k: Key) {
    k.id < 0x1_0000_0000 && |k.pub| == 32 && (k.signature.Some? ==> |k.signature.value| == 64)
  }

  // ---------- child lookup ----------

  function First(nodes: seq<Node>, tag: string): Option<Node> {
    if nodes == [] then None else if nodes[0].tag == tag then Some(nodes[0]) else First(nodes[1..], tag)
  }

  /** The first child with the tag, or the node itself when there is none. */
  function GetChildByTag(n: Node, tag: string): Node {
    var found := if n.content.Children? then First(n.content.nodes, tag) else None;
    if found.Some? then found.value else n
  }

  function ReadField(n: Node, tag: string, length: nat): Result<Bytes, Error> {
    var child := GetChildByTag(n, tag);
    if child.tag != tag then Err(Missing(tag))
    else if !child.content.Data? then Err(NotBytes(tag))
    else if |child.content.bytes| != length then Err(WrongLength(tag, |child.content.bytes|))
    else Ok(child.content.bytes)
  }

  // ---------- the two conversions ----------

  function BigEndian32(id: nat): Bytes
    requires id < 0x1_0000_0000
  {
    [id / 0x100_0000, id / 0x1_0000 % 0x100, id / 0x100 % 0x100, id % 0x100]
  }

  function FromBigEndian32(b: Bytes): nat
    requires |b| == 4
  {
    var b0: int, b1: int, b2: int, b3: int := b[0], b[1], b[2], b[3];
    b0 * 0x100_0000 + b1 * 0x1_0000 + b2 * 0x100 + b3
  }

  function PreKeyToNode(k: Key): Node
    requires IsKey(k)
  {
    var fields := [Node("id", Data(BigEndian32(k.id)[1..])), Node("value", Data(k.pub))];
    if k.signature.None? then Node("key", Children(fields))
    else Node("skey", Children(fields + [Node("signature", Data(k.signature.value))]))
  }

  function NodeToPreKey(n: Node): Result<Key, Error> {
    match ReadField(n, "id", 3)
    case Err(e) => Err(e)
    case Ok(id) =>
      match ReadField(n, "value", 32)
      case Err(e) => Err(e)
      case Ok(pub) =>
        var key := Key(FromBigEndian32([0] + id), pub, None);
        if n.tag != "skey" then Ok(key)
        else
          match ReadField(n, "signature", 64)
          case Err(e) => Err(e)
          case Ok(sig) => Ok(key.(signature := Some(sig)))
  }

  // ---------- round trips ----------

  lemma {:induction false} BigEndianLow(id: nat)
    requires id < 0x1_0000_0000
    ensures FromBigEndian32([0] + BigEndian32(id)[1..]) == id % 0x100_0000
  {
    var b := BigEndian32(id);
    assert [0] + b[1..] == [0, b[1], b[2], b[3]];
  }

  lemma {:induction false} FieldsRead(k: Key)
    requires IsKey(k)
    ensures ReadField(PreKeyToNode(k), "id", 3) == Ok(BigEndian32(k.id)[1..])
    ensures ReadField(PreKeyToNode(k), "value", 32) == Ok(k.pub)
    ensures k.signature.Some? ==> ReadField(PreKeyToNode(k), "signature", 64) == Ok(k.signature.value)
  {
    var n := PreKeyToNode(k).content.nodes;
    assert "id" != "value" && "value" != "signature" && "id" != "signature" by {
      assert |"id"| == 2 && |"value"| == 5 && |"signature"| == 9;
    }
    assert n[1..][0] == n[1];
    assert First(n, "id") == Some(n[0]);
    assert First(n, "value") == First(n[1..], "value") == Some(n[1]);
    if k.signature.Some? {
      assert n[1..][1..][0] == n[2];
      assert First(n, "signature") == First(n[1..], "signature") == First(n[1..][1..], "signature") == Some(n[2]);
    }
  }

  /** A key comes back with its id cut to 24 bits, so it comes back unchanged exactly if the id fits them. */
  lemma {:induction false} KeyRoundTripIff(k: Key)
    requires IsKey(k)
    ensures NodeToPreKey(PreKeyToNode(k)) == Ok(k.(id := k.id % 0x100_0000))
    ensures NodeToPreKey(PreKeyToNode(k)) == Ok(k) <==> k.id < 0x100_0000
  {
    FieldsRead(k);
    BigEndianLow(k.id);
    assert "key" != "skey" by {
      assert |"key"| == 3 && |"skey"| == 4;
    }
  }

  /** Every key read from a node, however shaped, survives being sent on. */
  lemma {:induction false} ReadKeysRoundTrip(n: Node)
    requires NodeToPreKey(n).Ok?
    ensures var k := NodeToPreKey(n).value; IsKey(k) && NodeToPreKey(PreKeyToNode(k)) == Ok(k)
    ensures NodeToPreKey(n).value.signature.Some? <==> n.tag == "skey"
  {
    KeyRoundTripIff(NodeToPreKey(n).value);
  }
}
