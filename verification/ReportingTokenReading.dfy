/**
 Reading canonical encodings byte by byte: what the extractor's varint reads return on them, and where its fields end.
 */
module ReportingTokenReading {
  import opened Prelude
  import opened Varint
  import opened WireTree

  /** int(l) of a uint64. */
  function AsInt(l: nat): int { if l < INT_LIMIT then l else l - UINT64_LIMIT }

  /** Where the value after a tag ends: the four cases of the two switches; None where they return nil. */
  function ValueEnd(data: Bytes, i: nat, wireType: nat): Option<int>
    requires i <= |data|
  {
    if wireType == WIRE_VARINT then Some(i + Uvarint(data[i..]).n)
    else if wireType == WIRE_64BIT then Some(i + 8)
    else if wireType == WIRE_BYTES then Some(i + Uvarint(data[i..]).n + AsInt(Uvarint(data[i..]).value))
    else if wireType == WIRE_32BIT then Some(i + 4)
    else None
  }

  // ---------- reading one field ----------

  function Payload(f: Field): Bytes
    requires f.LenField? || f.SubMessage?
  {
    if f.LenField? then f.payload else EncodeDoc(f.doc)
  }

  function Body(f: Field): Bytes {
    match f
    case VarintField(_, v) => Put(v)
    case Fixed64(_, d) => d
    case Fixed32(_, d) => d
    case LenField(_, _) => Put(|Payload(f)|) + Payload(f)
    case SubMessage(_, _) => Put(|Payload(f)|) + Payload(f)
  }

  lemma {:induction false} SplitField(f: Field)
    ensures EncodeField(f) == Put(TagOf(f)) + Body(f)
  {
  }

  lemma {:induction false} Slices(data: Bytes, j: nat, a: Bytes, b: Bytes)
    requires j <= |data| && data[j..] == a + b
    ensures j + |a| <= |data| && data[j..j + |a|] == a && data[j + |a|..] == b
  {
  }

  lemma {:induction false} BytesAreRead(data: Bytes, j: nat, p: Bytes, rest: Bytes)
    requires j <= |data| && |p| < INT_LIMIT && data[j..] == Put(|p|) + p + rest
    ensures ValueEnd(data, j, WIRE_BYTES) == Some(j + |Put(|p|)| + |p|)
    ensures Uvarint(data[j..]).n == |Put(|p|)|
    ensures j + |Put(|p|)| + |p| <= |data| && data[j + |Put(|p|)|..j + |Put(|p|)| + |p|] == p
  {
    var l := Put(|p|);
    assert l + p + rest == l + (p + rest);
    UvarintPut(|p|, p + rest);
    Slices(data, j, l, p + rest);
    Slices(data, j + |l|, p, rest);
  }

  lemma {:induction false} VarintIsRead(data: Bytes, j: nat, v: nat, rest: Bytes)
    requires j <= |data| && v < UINT64_LIMIT && data[j..] == Put(v) + rest
    ensures ValueEnd(data, j, WIRE_VARINT) == Some(j + |Put(v)|)
  {
    UvarintPut(v, rest);
  }

  lemma {:induction false} PrefixedIsRead(data: Bytes, j: nat, p: Bytes, body: Bytes, rest: Bytes)
    requires j <= |data| && |p| < INT_LIMIT && body == Put(|p|) + p && data[j..] == body + rest
    ensures ValueEnd(data, j, WIRE_BYTES) == Some(j + |body|)
  {
    BytesAreRead(data, j, p, rest);
  }

  lemma {:induction false} PayloadFits(f: Field)
    requires ValidField(f) && (f.LenField? || f.SubMessage?)
    ensures |Payload(f)| < INT_LIMIT && Body(f) == Put(|Payload(f)|) + Payload(f)
  {
  }

  lemma {:induction false} VarintFieldIsRead(data: Bytes, j: nat, f: Field, rest: Bytes)
    requires j <= |data| && ValidField(f) && f.VarintField? && data[j..] == Body(f) + rest
    ensures ValueEnd(data, j, WIRE_VARINT) == Some(j + |Body(f)|)
  {
    VarintIsRead(data, j, f.value, rest);
  }

  /** The value of a field ends where its encoding ends. */
  lemma {:induction false} ValueIsRead(data: Bytes, j: nat, f: Field, rest: Bytes)
    requires j <= |data| && ValidField(f) && data[j..] == Body(f) + rest
    ensures ValueEnd(data, j, WireType(f)) == Some(j + |Body(f)|)
  {
    if f.VarintField? {
      VarintFieldIsRead(data, j, f, rest);
    } else if f.LenField? || f.SubMessage? {
      PayloadFits(f);
      PrefixedIsRead(data, j, Payload(f), Body(f), rest);
    }
  }

  /** The tag of a field is read back, followed by its value. */
  lemma {:induction false} TagIsRead(data: Bytes, i: nat, f: Field, rest: Bytes)
    requires i <= |data| && f.num < NUM_LIMIT && data[i..] == EncodeField(f) + rest
    ensures Uvarint(data[i..]).value == TagOf(f) && 0 < Uvarint(data[i..]).n <= |data| - i
    ensures data[i + Uvarint(data[i..]).n..] == Body(f) + rest
    ensures |EncodeField(f)| == Uvarint(data[i..]).n + |Body(f)|
  {
    SplitField(f);
    var t := Put(TagOf(f));
    assert (t + Body(f)) + rest == t + (Body(f) + rest);
    UvarintPut(TagOf(f), Body(f) + rest);
    Slices(data, i, t, Body(f) + rest);
  }

  lemma {:induction false} TagSplits(f: Field)
    ensures TagOf(f) / 8 == f.num && TagOf(f) % 8 == WireType(f)
  {
  }

  // ---------- the rest of a message ----------

  ghost function After(doc: Doc, k: nat): Bytes
    requires k <= |doc.fields|
  {
    EncodeFields(doc.fields[k..]) + EncodeTail(doc.tail)
  }

  lemma {:induction false} FieldComesNext(data: Bytes, i: nat, doc: Doc, k: nat)
    requires i <= |data| && k < |doc.fields| && data[i..] == After(doc, k)
    ensures data[i..] == EncodeField(doc.fields[k]) + After(doc, k + 1)
  {
  }
}
