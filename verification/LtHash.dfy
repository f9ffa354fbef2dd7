/**
 The homomorphic summation hash of appstate/lthash/lthash.go.

 A hash is 128 bytes read as 64 little-endian 16-bit lanes.  Items are expanded to
 128 bytes and added to, or subtracted from, the hash lane by lane with wrap-around.
 The expansion (HKDF) is a parameter: nothing below depends on what it computes.
 */
module LtHash {
  import opened Prelude

  const HASH_SIZE := 128
  const LANES := 64
  const LANE_MODULUS := 0x10000

  type Hash = s: Bytes | |s| == HASH_SIZE witness seq(HASH_SIZE, _ => 0)

  type Expansion = Bytes -> Hash

  function Zero(): Hash { seq(HASH_SIZE, _ => 0) }

  // ---------- lanes ----------

  /** binary.LittleEndian.Uint16(b[2k : 2k+2]) */
  function Lane(b: Bytes, k: nat): (r: int)
    requires 2 * k + 1 < |b|
    ensures 0 <= r < LANE_MODULUS
  {
    (b[2 * k] as int) + 256 * (b[2 * k + 1] as int)
  }

  /** uint16 addition or subtraction, with overflow. */
  function Wrap(x: int, y: int, subtract: bool): (r: int)
    ensures 0 <= r < LANE_MODULUS
  {
    if subtract then (x - y) % LANE_MODULUS else (x + y) % LANE_MODULUS
  }

  ghost predicate IsCombination(r: Hash, h: Hash, e: Hash, subtract: bool) {
    forall k :: 0 <= k < LANES ==> Lane(r, k) == Wrap(Lane(h, k), Lane(e, k), subtract)
  }

  /** The hash whose lanes are the wrapped lanes of the operands. */
  ghost function Combine(h: Hash, e: Hash, subtract: bool): (r: Hash)
    ensures IsCombination(r, h, e, subtract)
  {
    CombinationExists(h, e, subtract);
    var r: Hash :| IsCombination(r, h, e, subtract);
    r
  }

  lemma {:induction false} CombinationExists(h: Hash, e: Hash, subtract: bool)
    ensures exists r: Hash :: IsCombination(r, h, e, subtract)
  {
    var r: Hash := seq(HASH_SIZE, (i: nat) requires i < HASH_SIZE =>
      var w := Wrap(Lane(h, i / 2), Lane(e, i / 2), subtract);
      (if i % 2 == 0 then w % 256 else w / 256) as byte);
    forall k | 0 <= k < LANES
      ensures Lane(r, k) == Wrap(Lane(h, k), Lane(e, k), subtract)
    {
      assert r[2 * k] == Wrap(Lane(h, k), Lane(e, k), subtract) % 256;
      assert r[2 * k + 1] == Wrap(Lane(h, k), Lane(e, k), subtract) / 256;
    }
    assert IsCombination(r, h, e, subtract);
  }

  ghost function Add(h: Hash, e: Hash): (r: Hash) { Combine(h, e, false) }

  ghost function Sub(h: Hash, e: Hash): (r: Hash) { Combine(h, e, true) }

  /** A hash is determined by its lanes. */
  lemma {:induction false} LanesDetermine(a: Hash, b: Hash)
    requires forall k :: 0 <= k < LANES ==> Lane(a, k) == Lane(b, k)
    ensures a == b
  {
    forall i | 0 <= i < HASH_SIZE
      ensures a[i] == b[i]
    {
      var k := i / 2;
      assert Lane(a, k) == Lane(b, k);
      assert i == 2 * k || i == 2 * k + 1;
    }
  }

  // ---------- the abelian group ----------

  lemma {:induction false} SubUndoesAdd(a: Hash, b: Hash)
    ensures Sub(Add(a, b), b) == a
  {
    forall k | 0 <= k < LANES
      ensures Lane(Sub(Add(a, b), b), k) == Lane(a, k)
    {
      WrapCancels(Lane(a, k), Lane(b, k));
    }
    LanesDetermine(Sub(Add(a, b), b), a);
  }

  /** Subtracting different values from one hash leaves different hashes. */
  lemma {:induction false} SubIsInjective(h: Hash, a: Hash, b: Hash)
    requires Sub(h, a) == Sub(h, b)
    ensures a == b
  {
    forall k | 0 <= k < LANES
      ensures Lane(a, k) == Lane(b, k)
    {
      assert Lane(Sub(h, a), k) == Lane(Sub(h, b), k);
      WrapIsInjective(Lane(h, k), Lane(a, k), Lane(b, k));
    }
    LanesDetermine(a, b);
  }

  lemma {:induction false} SubZero(h: Hash)
    ensures Sub(h, Zero()) == h
  {
    forall k | 0 <= k < LANES
      ensures Lane(Sub(h, Zero()), k) == Lane(h, k)
    {
      assert Lane(Zero(), k) == 0;
    }
    LanesDetermine(Sub(h, Zero()), h);
  }

  lemma {:induction false} WrapIsInjective(x: int, y: int, z: int)
    requires 0 <= y < LANE_MODULUS && 0 <= z < LANE_MODULUS && Wrap(x, y, true) == Wrap(x, z, true)
    ensures y == z
  {
  }

  /** Successive additions and subtractions may be reordered. */
  lemma {:induction false} CombineSwap(a: Hash, b: Hash, subB: bool, c: Hash, subC: bool)
    ensures Combine(Combine(a, b, subB), c, subC) == Combine(Combine(a, c, subC), b, subB)
  {
    var left, right := Combine(Combine(a, b, subB), c, subC), Combine(Combine(a, c, subC), b, subB);
    forall k | 0 <= k < LANES
      ensures Lane(left, k) == Lane(right, k)
    {
      WrapSwap(Lane(a, k), Lane(b, k), subB, Lane(c, k), subC);
    }
    LanesDetermine(left, right);
  }

  lemma {:induction false} WrapCancels(x: int, y: int)
    requires 0 <= x < LANE_MODULUS
    ensures Wrap(Wrap(x, y, false), y, true) == x
  {
  }

  lemma {:induction false} WrapSwap(x: int, y: int, subY: bool, z: int, subZ: bool)
    ensures Wrap(Wrap(x, y, subY), z, subZ) == Wrap(Wrap(x, z, subZ), y, subY)
  {
    var dy := if subY then -y else y;
    var dz := if subZ then -z else z;
    WrapTwice(x + dy, dz);
    WrapTwice(x + dz, dy);
  }

  lemma {:induction false} WrapTwice(s: int, d: int)
    ensures (s % LANE_MODULUS + d) % LANE_MODULUS == (s + d) % LANE_MODULUS
  {
  }

  // ---------- folding lists of items ----------

  /** multipleOp: adds every item to the hash, or subtracts every item from it. */
  ghost function Fold(x: Expansion, h: Hash, items: seq<Bytes>, subtract: bool): Hash {
    if items == [] then h
    else Combine(Fold(x, h, items[..|items| - 1], subtract), x(items[|items| - 1]), subtract)
  }

  /** SubtractThenAdd as a function of its inputs. */
  ghost function SubtractThenAdd(x: Expansion, h: Hash, removed: seq<Bytes>, added: seq<Bytes>): Hash {
    Fold(x, Fold(x, h, removed, true), added, false)
  }

  lemma {:induction false} FoldSnoc(x: Expansion, h: Hash, items: seq<Bytes>, a: Bytes, subtract: bool)
    ensures Fold(x, h, items + [a], subtract) == Combine(Fold(x, h, items, subtract), x(a), subtract)
  {
  }

  lemma {:induction false} SubCommutesWithFold(x: Expansion, h: Hash, e: Hash, items: seq<Bytes>)
    ensures Fold(x, Sub(h, e), items, false) == Sub(Fold(x, h, items, false), e)
  {
    if items != [] {
      var front, last := items[..|items| - 1], x(items[|items| - 1]);
      SubCommutesWithFold(x, h, e, front);
      CombineSwap(Fold(x, h, front, false), e, true, last, false);
    }
  }

  /** One more removal and one more addition act on the hash as if done last, in either order. */
  lemma {:induction false} SubtractThenAddExtend(x: Expansion, h: Hash, removed: seq<Bytes>, added: seq<Bytes>, item: Bytes)
    ensures SubtractThenAdd(x, h, removed, added + [item]) == Add(SubtractThenAdd(x, h, removed, added), x(item))
    ensures SubtractThenAdd(x, h, removed + [item], added) == Sub(SubtractThenAdd(x, h, removed, added), x(item))
  {
    FoldSnoc(x, Fold(x, h, removed, true), added, item, false);
    FoldSnoc(x, h, removed, item, true);
    SubCommutesWithFold(x, Fold(x, h, removed, true), x(item), added);
  }

  // ---------- the in-place implementation ----------

  /** performPointwiseWithOverflow: the loop over 2-byte steps that rewrites `base`. */
  method PerformPointwiseWithOverflow(base: array<byte>, input: Hash, subtract: bool)
    requires base.Length == HASH_SIZE
    modifies base
    ensures base[..] == Combine(old(base[..]), input, subtract)
  {
    ghost var before: Hash := base[..];
    var i := 0;
    while i < base.Length
      invariant 0 <= i <= base.Length && i % 2 == 0
      invariant forall k :: 0 <= k < i / 2 ==> Lane(base[..], k) == Wrap(Lane(before, k), Lane(input, k), subtract)
      invariant forall j :: i <= j < base.Length ==> base[j] == before[j]
    {
      var x := (base[i] as int) + 256 * (base[i + 1] as int);
      var y := (input[i] as int) + 256 * (input[i + 1] as int);
      var result := Wrap(x, y, subtract);
      assert x == Lane(before, i / 2) && y == Lane(input, i / 2);
      base[i], base[i + 1] := result % 256, result / 256;
      assert Lane(base[..], i / 2) == result;
      i := i + 2;
    }
    LanesDetermine(base[..], Combine(before, input, subtract));
  }

  /** multipleOp followed by its opposite: SubtractThenAddInPlace. */
  method SubtractThenAddInPlace(x: Expansion, base: array<byte>, subtract: seq<Bytes>, add: seq<Bytes>)
    requires base.Length == HASH_SIZE
    modifies base
    ensures base[..] == SubtractThenAdd(x, old(base[..]), subtract, add)
  {
    MultipleOp(x, base, subtract, true);
    MultipleOp(x, base, add, false);
  }

  method MultipleOp(x: Expansion, base: array<byte>, items: seq<Bytes>, subtract: bool)
    requires base.Length == HASH_SIZE
    modifies base
    ensures base[..] == Fold(x, old(base[..]), items, subtract)
  {
    ghost var before: Hash := base[..];
    for n := 0 to |items|
      invariant base[..] == Fold(x, before, items[..n], subtract)
    {
      assert items[..n + 1] == items[..n] + [items[n]];
      FoldSnoc(x, before, items[..n], items[n], subtract);
      PerformPointwiseWithOverflow(base, x(items[n]), subtract);
    }
    assert items[..|items|] == items;
  }

  // ---------- the hash of a whole table ----------

  /** The hash recomputed from nothing: the sum of the expanded values of a table, in any order. */
  ghost function TableHash(x: Expansion, t: map<Bytes, Bytes>): Hash
    decreases |t|
  {
    if t == map[] then Zero()
    else
      var k :| k in t;
      Add(TableHash(x, t - {k}), x(t[k]))
  }

  lemma {:induction false} TableHashUnfold(x: Expansion, t: map<Bytes, Bytes>) returns (c: Bytes)
    requires t != map[]
    ensures c in t && TableHash(x, t) == Add(TableHash(x, t - {c}), x(t[c]))
  {
    c :| c in t && TableHash(x, t) == Add(TableHash(x, t - {c}), x(t[c]));
  }

  /** The choice made in TableHash does not matter: any key can be taken out first. */
  lemma {:induction false} TableHashPick(x: Expansion, t: map<Bytes, Bytes>, k: Bytes)
    requires k in t
    ensures TableHash(x, t) == Add(TableHash(x, t - {k}), x(t[k]))
    decreases |t|
  {
    var c := TableHashUnfold(x, t);
    if c != k {
      var withoutC, withoutK := t - {c}, t - {k};
      var rest := withoutC - {k};
      assert rest == withoutK - {c};
      assert withoutC[k] == t[k] && withoutK[c] == t[c];
      assert |withoutC| < |t| && |withoutK| < |t| by {
        assert withoutC.Keys == t.Keys - {c} && withoutK.Keys == t.Keys - {k};
      }
      TableHashPick(x, withoutC, k);
      TableHashPick(x, withoutK, c);
      CombineSwap(TableHash(x, rest), x(t[k]), false, x(t[c]), false);
    }
  }

  /** Removing a present key subtracts its value; storing a value under an absent key adds it. */
  lemma {:induction false} TableHashRemove(x: Expansion, t: map<Bytes, Bytes>, k: Bytes)
    requires k in t
    ensures TableHash(x, t - {k}) == Sub(TableHash(x, t), x(t[k]))
  {
    TableHashPick(x, t, k);
    SubUndoesAdd(TableHash(x, t - {k}), x(t[k]));
  }

  lemma {:induction false} TableHashStore(x: Expansion, t: map<Bytes, Bytes>, k: Bytes, v: Bytes)
    ensures TableHash(x, t[k := v]) == Add(TableHash(x, t - {k}), x(v))
  {
    assert t[k := v] - {k} == t - {k};
    TableHashPick(x, t[k := v], k);
  }
}
