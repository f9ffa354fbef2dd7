/**
 Base-128 varints as encoding/binary reads and writes them: at most ten bytes, low group first.
 */
module Varint {
  import opened Prelude

  const MAX_VARINT_LEN := 10
  const UINT64_LIMIT := 0x1_0000_0000_0000_0000

  /** A decoded value and the number of bytes read; n == 0 for a truncated buffer, n < 0 for an overflow. */
  datatype Decoded = Decoded(value: nat, n: int)

  /** binary.PutUvarint into a fresh buffer. */
  function Put(v: nat): (r: Bytes)
    ensures |r| >= 1
  {
    if v < 128 then [v] else [v % 128 + 128] + Put(v / 128)
  }

  /** binary.Uvarint on a buffer whose first i bytes were continuation bytes. */
  function ReadFrom(s: Bytes, i: nat): (r: Decoded)
    requires i <= MAX_VARINT_LEN
    decreases MAX_VARINT_LEN - i
  {
    if s == [] then Decoded(0, 0)
    else if i == MAX_VARINT_LEN then Decoded(0, -(i + 1))
    else if s[0] < 128 then
      (if i == MAX_VARINT_LEN - 1 && s[0] > 1 then Decoded(0, -(i + 1)) else Decoded(s[0], i + 1))
    else
      var rest := ReadFrom(s[1..], i + 1);
      if rest.n <= 0 then rest else Decoded(s[0] - 128 + 128 * rest.value, rest.n)
  }

  function Uvarint(s: Bytes): Decoded { ReadFrom(s, 0) }

  /** Values that still fit in 64 bits after i groups. */
  function Room(i: nat): nat
    requires i < MAX_VARINT_LEN
    decreases MAX_VARINT_LEN - i
  {
    if i == MAX_VARINT_LEN - 1 then 2 else 128 * Room(i + 1)
  }

  lemma {:induction false} RoomIsUint64()
    ensures Room(0) == UINT64_LIMIT
  {
  }

  lemma {:induction false} ReadPut(v: nat, i: nat, rest: Bytes)
    requires i < MAX_VARINT_LEN && v < Room(i)
    ensures ReadFrom(Put(v) + rest, i) == Decoded(v, i + |Put(v)|)
    decreases v
  {
    if v >= 128 {
      assert (Put(v) + rest)[1..] == Put(v / 128) + rest;
      ReadPut(v / 128, i + 1, rest);
    }
  }

  /** Reading back a written value consumes exactly its bytes, whatever follows. */
  lemma {:induction false} UvarintPut(v: nat, rest: Bytes)
    requires v < UINT64_LIMIT
    ensures Uvarint(Put(v) + rest) == Decoded(v, |Put(v)|)
  {
    RoomIsUint64();
    ReadPut(v, 0, rest);
  }

  lemma {:induction false} PutIsMonotone(v: nat, w: nat)
    requires v <= w
    ensures |Put(v)| <= |Put(w)|
  {
    if v >= 128 {
      PutIsMonotone(v / 128, w / 128);
    }
  }
}
