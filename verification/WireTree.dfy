/**
 Protobuf messages as trees and their canonical wire encoding.  The tail of a message covers the two
 malformed endings the extractor handles: bytes that do not start with a tag, and a tag whose wire type
 it does not know.
 */
module WireTree {
  import opened Prelude
  import opened Varint

  const WIRE_VARINT := 0
  const WIRE_64BIT := 1
  const WIRE_BYTES := 2
  const WIRE_32BIT := 5
  const NUM_LIMIT := 0x2000_0000_0000_0000
  const INT_LIMIT := 0x8000_0000_0000_0000

  datatype Field =
    | VarintField(num: nat, value: nat)
    | Fixed64(num: nat, data: Bytes)
    | Fixed32(num: nat, data: Bytes)
    | LenField(num: nat, payload: Bytes)
    | SubMessage(num: nat, doc: Doc)

  datatype Doc = Doc(fields: seq<Field>, tail: Tail)

  datatype Tail = End | BadTag(rest: Bytes) | BadWire(tag: nat, rest: Bytes)

  function WireType(f: Field): (r: nat)
    ensures r < 8
  {
    match f
    case VarintField(_, _) => WIRE_VARINT
    case Fixed64(_, _) => WIRE_64BIT
    case Fixed32(_, _) => WIRE_32BIT
    case LenField(_, _) => WIRE_BYTES
    case SubMessage(_, _) => WIRE_BYTES
  }

  function TagOf(f: Field): nat { 8 * f.num + WireType(f) }

  predicate KnownWire(w: nat) { w == WIRE_VARINT || w == WIRE_64BIT || w == WIRE_BYTES || w == WIRE_32BIT }

  // ---------- encoding ----------

  function EncodeField(f: Field): (r: Bytes)
    ensures |r| >= 1
    decreases f, 0
  {
    Put(TagOf(f)) +
    match f
    case VarintField(_, v) => Put(v)
    case Fixed64(_, d) => d
    case Fixed32(_, d) => d
    case LenField(_, p) => Put(|p|) + p
    case SubMessage(_, d) => Put(|EncodeDoc(d)|) + EncodeDoc(d)
  }

  function EncodeFields(fs: seq<Field>): Bytes
    decreases fs, 1
  {
    if fs == [] then [] else EncodeField(fs[0]) + EncodeFields(fs[1..])
  }

  function EncodeTail(t: Tail): Bytes {
    match t
    case End => []
    case BadTag(rest) => rest
    case BadWire(tag, rest) => Put(tag) + rest
  }

  function EncodeDoc(d: Doc): Bytes
    decreases d, 2
  {
    EncodeFields(d.fields) + EncodeTail(d.tail)
  }

  // ---------- well-formed trees ----------

  predicate ValidTail(t: Tail) {
    match t
    case End => true
    case BadTag(rest) => rest != [] && Uvarint(rest).n <= 0
    case BadWire(tag, _) => tag < UINT64_LIMIT && !KnownWire(tag % 8)
  }

  predicate ValidField(f: Field)
    decreases f, 0
  {
    && f.num < NUM_LIMIT
    && match f
       case VarintField(_, v) => v < UINT64_LIMIT
       case Fixed64(_, d) => |d| == 8
       case Fixed32(_, d) => |d| == 4
       case LenField(_, p) => |p| < INT_LIMIT
       case SubMessage(_, d) => ValidDoc(d) && |EncodeDoc(d)| < INT_LIMIT
  }

  predicate ValidDoc(d: Doc)
    decreases d, 1
  {
    (forall f :: f in d.fields ==> ValidField(f)) && ValidTail(d.tail)
  }

  // ---------- equality up to the order of fields ----------

  predicate Sorted(fs: seq<Field>) {
    forall i, j :: 0 <= i < j < |fs| ==> fs[i].num <= fs[j].num
  }

  ghost predicate Permutation(a: seq<Field>, b: seq<Field>) { multiset(a) == multiset(b) }

  /** The same fields, at every level up to order. */
  ghost predicate SameFields(a: seq<Field>, b: seq<Field>)
    decreases a, 1
  {
    exists a', b' :: Permutation(a', a) && Permutation(b', b) && Pairwise(a, a', b')
  }

  /** Element by element the same; `whole` bounds the recursion, its elements being those of `a`. */
  ghost predicate Pairwise(whole: seq<Field>, a: seq<Field>, b: seq<Field>)
    decreases whole, 0
  {
    && |a| == |b|
    && forall i :: 0 <= i < |a| ==> a[i] in whole && SameField(a[i], b[i])
  }

  ghost predicate SameField(f: Field, g: Field)
    decreases f, 0
  {
    f == g || (f.SubMessage? && g.SubMessage? && f.num == g.num && f.doc.tail == g.doc.tail && SameFields(f.doc.fields, g.doc.fields))
  }
}
