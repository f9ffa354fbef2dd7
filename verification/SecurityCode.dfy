/**
 The numeric identity code two users compare (security_code.go). SHA-512 is a parameter that returns 64 bytes; the
 context is the answer it gives each time it is asked whether it was cancelled.
 */
module SecurityCode {
  import opened Prelude

  const SECURITY_CODE_ITERATIONS: nat := 5200
  const KEY_LENGTH: nat := 32
  const KEY_TYPE: byte := 0x05

  datatype Error = Cancelled

  type Hash = Bytes -> Bytes

  ghost predicate Sized(sha: Hash) { forall x :: |sha(x)| == 64 }

  ghost predicate AreKeys(keys: seq<Bytes>) { forall i :: 0 <= i < |keys| ==> |keys[i]| == KEY_LENGTH }

  // ---------- the byte order ----------

  predicate LessEq(a: Bytes, b: Bytes) {
    if a == [] then true
    else if b == [] then false
    else a[0] < b[0] || (a[0] == b[0] && LessEq(a[1..], b[1..]))
  }

  lemma {:induction false} LessEqTotal(a: Bytes, b: Bytes)
    ensures LessEq(a, b) || LessEq(b, a)
  {
    if a != [] && b != [] {
      LessEqTotal(a[1..], b[1..]);
    }
  }

  lemma {:induction false} LessEqAntisymmetric(a: Bytes, b: Bytes)
    requires LessEq(a, b) && LessEq(b, a)
    ensures a == b
  {
    if a != [] && b != [] {
      LessEqAntisymmetric(a[1..], b[1..]);
      assert a == [a[0]] + a[1..] && b == [b[0]] + b[1..];
    }
  }

  lemma {:induction false} LessEqTransitive(a: Bytes, b: Bytes, c: Bytes)
    requires LessEq(a, b) && LessEq(b, c)
    ensures LessEq(a, c)
  {
    if a != [] && b != [] && c != [] && a[0] == b[0] == c[0] {
      LessEqTransitive(a[1..], b[1..], c[1..]);
    }
  }

  // ---------- serialising a set of keys ----------

  ghost predicate Sorted(keys: seq<Bytes>) {
    forall i, j :: 0 <= i < j < |keys| ==> LessEq(keys[i], keys[j])
  }

  /** Where a key goes among sorted ones. */
  function Slot(sorted: seq<Bytes>, key: Bytes): (k: nat)
    ensures k <= |sorted|
    ensures forall i :: 0 <= i < k ==> !LessEq(key, sorted[i])
    ensures k < |sorted| ==> LessEq(key, sorted[k])
  {
    if sorted == [] || LessEq(key, sorted[0]) then 0 else 1 + Slot(sorted[1..], key)
  }

  function SortKeys(keys: seq<Bytes>): seq<Bytes> {
    if keys == [] then []
    else
      var rest := SortKeys(keys[1..]);
      var k := Slot(rest, keys[0]);
      rest[..k] + [keys[0]] + rest[k..]
  }

  lemma {:induction false} InsertKeepsSorted(sorted: seq<Bytes>, key: Bytes)
    requires Sorted(sorted)
    ensures var k := Slot(sorted, key); Sorted(sorted[..k] + [key] + sorted[k..])
  {
    var k := Slot(sorted, key);
    var r := sorted[..k] + [key] + sorted[k..];
    forall i, j | 0 <= i < j < |r|
      ensures LessEq(r[i], r[j])
    {
      if i == k {
        assert r[j] == sorted[j - 1];
        if k < j - 1 {
          LessEqTransitive(key, sorted[k], sorted[j - 1]);
        }
      } else if j == k {
        assert r[i] == sorted[i];
        LessEqTotal(key, sorted[i]);
      } else {
        assert r[i] == sorted[if i < k then i else i - 1] && r[j] == sorted[if j < k then j else j - 1];
      }
    }
  }

  lemma {:induction false} InsertKeepsElements(sorted: seq<Bytes>, k: nat, key: Bytes)
    requires k <= |sorted|
    ensures multiset(sorted[..k] + [key] + sorted[k..]) == multiset(sorted) + multiset{key}
  {
    assert sorted == sorted[..k] + sorted[k..];
  }

  lemma {:induction false} SortKeysSorts(keys: seq<Bytes>)
    ensures Sorted(SortKeys(keys)) && multiset(SortKeys(keys)) == multiset(keys)
  {
    if keys != [] {
      SortKeysSorts(keys[1..]);
      var rest := SortKeys(keys[1..]);
      InsertKeepsSorted(rest, keys[0]);
      InsertKeepsElements(rest, Slot(rest, keys[0]), keys[0]);
      assert keys == [keys[0]] + keys[1..];
    }
  }

  /** The sorted order of a multiset of keys is unique. */
  lemma {:induction false} SortedIsUnique(a: seq<Bytes>, b: seq<Bytes>)
    requires Sorted(a) && Sorted(b) && multiset(a) == multiset(b)
    ensures a == b
  {
    assert |a| == |multiset(a)| == |multiset(b)| == |b|;
    if a != [] {
      SmallestFirst(a, b);
      TailElements(a);
      TailElements(b);
      SortedIsUnique(a[1..], b[1..]);
    }
  }

  lemma {:induction false} TailElements(s: seq<Bytes>)
    requires s != []
    ensures s == [s[0]] + s[1..] && multiset(s[1..]) == multiset(s) - multiset{s[0]}
  {
  }

  lemma {:induction false} SmallestFirst(a: seq<Bytes>, b: seq<Bytes>)
    requires Sorted(a) && Sorted(b) && a != [] && b != [] && multiset(a) == multiset(b)
    ensures a[0] == b[0]
  {
    assert a[0] in multiset(b) && b[0] in multiset(a);
    var i :| 0 <= i < |b| && b[i] == a[0];
    var j :| 0 <= j < |a| && a[j] == b[0];
    if i > 0 && j > 0 {
      LessEqAntisymmetric(a[0], b[0]);
    }
  }

  function Flat(keys: seq<Bytes>): Bytes {
    if keys == [] then [] else Flat(keys[..|keys| - 1]) + [KEY_TYPE] + keys[|keys| - 1]
  }

  lemma {:induction false} FlatLength(keys: seq<Bytes>)
    requires AreKeys(keys)
    ensures |Flat(keys)| == 33 * |keys|
  {
    if keys != [] {
      FlatLength(keys[..|keys| - 1]);
    }
  }

  lemma {:induction false} FlatIsInjective(a: seq<Bytes>, b: seq<Bytes>)
    requires AreKeys(a) && AreKeys(b) && Flat(a) == Flat(b)
    ensures a == b
  {
    FlatLength(a);
    FlatLength(b);
    if a != [] {
      var n := |a| - 1;
      FlatLength(a[..n]);
      FlatLength(b[..n]);
      assert Flat(a)[..33 * n] == Flat(a[..n]) && Flat(b)[..33 * n] == Flat(b[..n]);
      assert Flat(a)[33 * n + 1..] == a[n] && Flat(b)[33 * n + 1..] == b[n];
      FlatIsInjective(a[..n], b[..n]);
      assert a == a[..n] + [a[n]] && b == b[..n] + [b[n]];
    }
  }

  method SerializeIdentityKeys(keys: seq<Bytes>) returns (serialized: Bytes)
    ensures serialized == Flat(SortKeys(keys))
  {
    var sorted := SortKeys(keys);
    serialized := [];
    for i := 0 to |sorted|
      invariant serialized == Flat(sorted[..i])
    {
      assert sorted[..i + 1][..i] == sorted[..i];
      serialized := serialized + [KEY_TYPE];
      serialized := serialized + sorted[i];
    }
    assert sorted[..|sorted|] == sorted;
  }

  lemma {:induction false} SortedAreKeys(keys: seq<Bytes>)
    requires AreKeys(keys)
    ensures AreKeys(SortKeys(keys))
  {
    if keys != [] {
      SortedAreKeys(keys[1..]);
    }
  }

  /** Two key lists serialise alike exactly if they hold the same keys equally often. */
  lemma {:induction false} SerializesAlikeIff(a: seq<Bytes>, b: seq<Bytes>)
    requires AreKeys(a) && AreKeys(b)
    ensures Flat(SortKeys(a)) == Flat(SortKeys(b)) <==> multiset(a) == multiset(b)
  {
    SortKeysSorts(a);
    SortKeysSorts(b);
    if Flat(SortKeys(a)) == Flat(SortKeys(b)) {
      SortedAreKeys(a);
      SortedAreKeys(b);
      FlatIsInjective(SortKeys(a), SortKeys(b));
    }
    if multiset(a) == multiset(b) {
      SortedIsUnique(SortKeys(a), SortKeys(b));
    }
  }

  // ---------- one party's thirty digits ----------

  /** The digest after n further rounds over the keys. */
  function Iterated(sha: Hash, identifier: Bytes, keys: Bytes, n: nat): Bytes {
    if n == 0 then sha([0, 0] + keys + identifier) else sha(Iterated(sha, identifier, keys, n - 1) + keys)
  }

  /** The five bytes from the offset, most significant first. */
  function Group(digest: Bytes, offset: nat): nat
    requires offset + 5 <= |digest|
  {
    var b0: int, b1: int, b2: int, b3: int, b4: int :=
      digest[offset], digest[offset + 1], digest[offset + 2], digest[offset + 3], digest[offset + 4];
    b0 * 0x1_0000_0000 + b1 * 0x100_0000 + b2 * 0x1_0000 + b3 * 0x100 + b4
  }

  function Pow10(n: nat): nat {
    if n == 0 then 1 else 10 * Pow10(n - 1)
  }

  /** The last n decimal digits of a number, with leading zeros. */
  function Padded(v: nat, n: nat): Bytes {
    if n == 0 then [] else Padded(v / 10, n - 1) + [48 + v % 10]
  }

  function Digits(digest: Bytes, groups: nat): Bytes
    requires groups * 5 <= |digest|
  {
    if groups == 0 then [] else Digits(digest, groups - 1) + Padded(Group(digest, groups * 5 - 5) % 100000, 5)
  }

  ghost predicate IsDecimal(s: Bytes) { forall i :: 0 <= i < |s| ==> 48 <= s[i] <= 57 }

  function DecimalValue(s: Bytes): int {
    if s == [] then 0
    else
      var d: int := s[|s| - 1];
      DecimalValue(s[..|s| - 1]) * 10 + d - 48
  }

  /** Reading the digits back gives the number. */
  lemma {:induction false} PaddedReads(v: nat, n: nat)
    requires v < Pow10(n)
    ensures |Padded(v, n)| == n && IsDecimal(Padded(v, n)) && DecimalValue(Padded(v, n)) == v
  {
    if n > 0 {
      PaddedReads(v / 10, n - 1);
      assert Padded(v, n)[..n - 1] == Padded(v / 10, n - 1);
    }
  }

  lemma {:induction false} FiveDigitsRead(v: nat)
    ensures var d := Padded(v % 100000, 5); |d| == 5 && IsDecimal(d) && DecimalValue(d) == v % 100000
  {
    assert Pow10(3) == 1000;
    assert Pow10(5) == 100000;
    PaddedReads(v % 100000, 5);
  }

  /** Five digits per group, and each group reads as its five bytes modulo 100000. */
  lemma {:induction false} DigitsRead(digest: Bytes, groups: nat, g: nat)
    requires groups * 5 <= |digest| && g < groups
    ensures var s := Digits(digest, groups);
            |s| == 5 * groups && DecimalValue(s[5 * g..5 * g + 5]) == Group(digest, 5 * g) % 100000
  {
    DigitsAreDecimal(digest, groups);
    DigitsAreDecimal(digest, groups - 1);
    var s := Digits(digest, groups);
    if g == groups - 1 {
      FiveDigitsRead(Group(digest, 5 * g));
      assert s[5 * g..5 * g + 5] == Padded(Group(digest, 5 * g) % 100000, 5);
    } else {
      DigitsRead(digest, groups - 1, g);
      assert s[5 * g..5 * g + 5] == Digits(digest, groups - 1)[5 * g..5 * g + 5];
    }
  }

  lemma {:induction false} DigitsAreDecimal(digest: Bytes, groups: nat)
    requires groups * 5 <= |digest|
    ensures |Digits(digest, groups)| == 5 * groups && IsDecimal(Digits(digest, groups))
  {
    if groups > 0 {
      DigitsAreDecimal(digest, groups - 1);
      FiveDigitsRead(Group(digest, groups * 5 - 5));
    }
  }

  function Fingerprint(sha: Hash, identifier: Bytes, keys: Bytes): Bytes
    requires |Iterated(sha, identifier, keys, SECURITY_CODE_ITERATIONS)| == 64
  {
    Digits(Iterated(sha, identifier, keys, SECURITY_CODE_ITERATIONS), 6)
  }

  lemma {:induction false} IteratedIsSized(sha: Hash, identifier: Bytes, keys: Bytes, n: nat)
    requires Sized(sha)
    ensures |Iterated(sha, identifier, keys, n)| == 64
  {
  }

  /** The context is asked once up front and then before every 64th round. */
  const CHECKS: nat := 83

  ghost predicate Undisturbed(cancelled: nat -> bool, from: nat, to: nat) {
    forall c :: from <= c < to ==> !cancelled(c)
  }

  /** Appending to the emptied buffer writes the new contents over the old ones. */
  method Overwrite(input: array<byte>, digest: Bytes, keys: Bytes)
    requires input.Length == |digest| + |keys|
    modifies input
    ensures input[..] == digest + keys
  {
    forall i | 0 <= i < |digest| {
      input[i] := digest[i];
    }
    forall i | 0 <= i < |keys| {
      input[|digest| + i] := keys[i];
    }
  }

  /** The digest and the keys are laid into one buffer that every round overwrites. */
  method GenerateSecurityCodeFingerprint(sha: Hash, cancelled: nat -> bool, start: nat, identifier: Bytes, keys: Bytes)
    returns (r: Result<Bytes, Error>)
    requires Sized(sha)
    ensures |Iterated(sha, identifier, keys, SECURITY_CODE_ITERATIONS)| == 64
    ensures r == if Undisturbed(cancelled, start, start + CHECKS) then Ok(Fingerprint(sha, identifier, keys)) else Err(Cancelled)
  {
    IteratedIsSized(sha, identifier, keys, SECURITY_CODE_ITERATIONS);
    if cancelled(start) {
      return Err(Cancelled);
    }
    var digest := sha([0, 0] + keys + identifier);
    assert |digest| == 64;
    var input := new byte[64 + |keys|];
    for index := 0 to SECURITY_CODE_ITERATIONS
      invariant digest == Iterated(sha, identifier, keys, index) && |digest| == 64
      invariant Undisturbed(cancelled, start, start + 1 + (index + 63) / 64)
    {
      if index % 64 == 0 {
        if cancelled(start + 1 + index / 64) {
          return Err(Cancelled);
        }
      }
      Overwrite(input, digest, keys);
      IteratedIsSized(sha, identifier, keys, index + 1);
      digest := sha(input[..]);
    }
    var code := Render(digest);
    r := Ok(code);
  }

  method Render(digest: Bytes) returns (code: Bytes)
    requires |digest| == 64
    ensures code == Digits(digest, 6)
  {
    code := [];
    var offset := 0;
    ghost var groups := 0;
    while offset < 30
      invariant groups <= 6 && offset == groups * 5
      invariant code == Digits(digest, groups)
    {
      code := code + Padded(Group(digest, offset) % 100000, 5);
      offset := offset + 5;
      groups := groups + 1;
    }
  }

  // ---------- the code both parties see ----------

  function Ordered(local: Bytes, remote: Bytes): Bytes {
    if !LessEq(remote, local) then local + remote else remote + local
  }

  ghost function NumericCode(sha: Hash, local: Bytes, localKeys: seq<Bytes>, remote: Bytes, remoteKeys: seq<Bytes>): Bytes
    requires Sized(sha)
  {
    IteratedIsSized(sha, local, Flat(SortKeys(localKeys)), SECURITY_CODE_ITERATIONS);
    IteratedIsSized(sha, remote, Flat(SortKeys(remoteKeys)), SECURITY_CODE_ITERATIONS);
    Ordered(Fingerprint(sha, local, Flat(SortKeys(localKeys))), Fingerprint(sha, remote, Flat(SortKeys(remoteKeys))))
  }

  method GenerateNumericSecurityCode(sha: Hash, cancelled: nat -> bool, localIdentifier: Bytes, localKeys: seq<Bytes>,
                                     remoteIdentifier: Bytes, remoteKeys: seq<Bytes>) returns (r: Result<Bytes, Error>)
    requires Sized(sha)
    ensures r == if Undisturbed(cancelled, 0, 2 * CHECKS)
                 then Ok(NumericCode(sha, localIdentifier, localKeys, remoteIdentifier, remoteKeys))
                 else Err(Cancelled)
  {
    var keys := SerializeIdentityKeys(localKeys);
    var local := GenerateSecurityCodeFingerprint(sha, cancelled, 0, localIdentifier, keys);
    if local.Err? {
      return local;
    }
    keys := SerializeIdentityKeys(remoteKeys);
    var remote := GenerateSecurityCodeFingerprint(sha, cancelled, CHECKS, remoteIdentifier, keys);
    if remote.Err? {
      return remote;
    }
    r := Ok(Ordered(local.value, remote.value));
  }

  lemma {:induction false} OrderedIsSymmetric(a: Bytes, b: Bytes)
    ensures Ordered(a, b) == Ordered(b, a)
  {
    LessEqTotal(a, b);
    if LessEq(a, b) && LessEq(b, a) {
      LessEqAntisymmetric(a, b);
    }
  }

  /** Both parties see the same sixty digits, in whatever order either of them lists its keys or the other's. */
  lemma {:induction false} BothPartiesSeeTheSameCode(sha: Hash, a: Bytes, aKeys: seq<Bytes>, aKeys': seq<Bytes>,
                                                     b: Bytes, bKeys: seq<Bytes>, bKeys': seq<Bytes>)
    requires Sized(sha)
    requires multiset(aKeys) == multiset(aKeys') && multiset(bKeys) == multiset(bKeys')
    ensures NumericCode(sha, a, aKeys, b, bKeys) == NumericCode(sha, b, bKeys', a, aKeys')
    ensures var code := NumericCode(sha, a, aKeys, b, bKeys); |code| == 60 && IsDecimal(code)
  {
    SortKeysSorts(aKeys);
    SortKeysSorts(aKeys');
    SortedIsUnique(SortKeys(aKeys), SortKeys(aKeys'));
    SortKeysSorts(bKeys);
    SortKeysSorts(bKeys');
    SortedIsUnique(SortKeys(bKeys), SortKeys(bKeys'));
    IteratedIsSized(sha, a, Flat(SortKeys(aKeys)), SECURITY_CODE_ITERATIONS);
    IteratedIsSized(sha, b, Flat(SortKeys(bKeys)), SECURITY_CODE_ITERATIONS);
    var fa, fb := Fingerprint(sha, a, Flat(SortKeys(aKeys))), Fingerprint(sha, b, Flat(SortKeys(bKeys)));
    OrderedIsSymmetric(fa, fb);
    DigitsAreDecimal(Iterated(sha, a, Flat(SortKeys(aKeys)), SECURITY_CODE_ITERATIONS), 6);
    DigitsAreDecimal(Iterated(sha, b, Flat(SortKeys(bKeys)), SECURITY_CODE_ITERATIONS), 6);
  }

  /** The smaller half comes first, so the code shows the two parties' digits in an order that depends on neither side. */
  lemma {:induction false} SmallerHalfFirst(a: Bytes, b: Bytes)
    requires |a| == |b|
    ensures var code := Ordered(a, b);
            var first, second := code[..|a|], code[|a|..];
            LessEq(first, second) && multiset{first, second} == multiset{a, b}
  {
    LessEqTotal(a, b);
    assert (a + b)[..|a|] == a && (a + b)[|a|..] == b && (b + a)[..|a|] == b && (b + a)[|a|..] == a;
  }
}
