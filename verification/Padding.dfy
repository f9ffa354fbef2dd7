/**
 Padding of message plaintexts (message.go): between one and fifteen copies of their own count. The random byte is a
 parameter.
 */
module Padding {
  import opened Prelude

  datatype Error = Empty | BadPadding

  function Repeat(b: byte, n: nat): Bytes { seq(n, i => b) }

  /** The low four bits of the random byte, or fifteen if they are all zero. */
  function PadByte(random: byte): byte { if random % 16 == 0 then 15 else random % 16 }

  function PadMessage(plaintext: Bytes, random: byte): Bytes {
    plaintext + Repeat(PadByte(random), PadByte(random))
  }

  predicate HasSuffix(s: Bytes, suffix: Bytes) {
    |suffix| <= |s| && s[|s| - |suffix|..] == suffix
  }

  predicate IsValidPadding(plaintext: Bytes)
    requires plaintext != []
  {
    var lastByte := plaintext[|plaintext| - 1];
    HasSuffix(plaintext, Repeat(lastByte, lastByte))
  }

  function UnpadMessage(plaintext: Bytes, version: int): Result<Bytes, Error> {
    if version == 3 then Ok(plaintext)
    else if plaintext == [] then Err(Empty)
    else if !IsValidPadding(plaintext) then Err(BadPadding)
    else Ok(plaintext[..|plaintext| - plaintext[|plaintext| - 1]])
  }

  /** Unpadding undoes padding exactly in the versions that pad. */
  lemma {:induction false} UnpadUndoesPad(plaintext: Bytes, random: byte, version: int)
    ensures UnpadMessage(PadMessage(plaintext, random), version) == Ok(plaintext) <==> version != 3
  {
  }

  /**
   What unpadding accepts: the message followed by n copies of n, for every n up to 255, or anything that ends in a zero
   byte, which is returned whole.
   */
  lemma {:induction false} UnpadAcceptsIff(padded: Bytes, plaintext: Bytes, version: int)
    requires version != 3
    ensures UnpadMessage(padded, version) == Ok(plaintext) <==>
            || (padded == plaintext && padded != [] && padded[|padded| - 1] == 0)
            || (exists n: byte :: n > 0 && padded == plaintext + Repeat(n, n))
  {
    if UnpadMessage(padded, version) == Ok(plaintext) {
      var n: byte := padded[|padded| - 1];
      assert padded == plaintext + Repeat(n, n);
    }
    if padded != [] && padded[|padded| - 1] == 0 {
      assert padded[..|padded|] == padded && padded[|padded|..] == Repeat(0, 0);
    }
    if n: byte :| n > 0 && padded == plaintext + Repeat(n, n) {
      assert padded[|padded| - 1] == n;
      assert padded[|padded| - n..] == Repeat(n, n);
      assert padded[..|padded| - n] == plaintext;
    }
  }
}
