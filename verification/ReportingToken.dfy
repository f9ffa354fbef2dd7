/**
 Reporting-token extraction (reportingtoken.go): which part of a message tree is reported, and the
 byte-level parser that computes it.
 */
module ReportingToken {
  import opened Prelude
  import opened Varint
  import opened WireTree

  datatype ReportingField = ReportingField(num: int, isMessage: bool, subfields: seq<ReportingField>)

  type Config = seq<ReportingField>

  /** The first entry for a field number. */
  function ConfigFor(config: Config, num: int): Option<ReportingField> {
    if config == [] then None
    else if config[0].num == num then Some(config[0])
    else ConfigFor(config[1..], num)
  }

  predicate Recurses(c: ReportingField) { c.isMessage || |c.subfields| > 0 }

  /** Where the configuration expects a message, the tree has one: what the schema of the message promises. */
  predicate Fits(d: Doc, config: Config)
    decreases d, 1
  {
    forall f :: f in d.fields ==> FitsField(f, config)
  }

  predicate FitsField(f: Field, config: Config)
    decreases f, 0
  {
    var c := ConfigFor(config, f.num);
    c.Some? && Recurses(c.value) ==> !f.LenField? && (f.SubMessage? ==> Fits(f.doc, c.value.subfields))
  }

  // ---------- the reported part of a tree ----------

  /** `f` is reported as `g`: unchanged, or with its own fields extracted. */
  ghost predicate Keeps(f: Field, config: Config, g: Field)
    decreases f, 0
  {
    var c := ConfigFor(config, f.num);
    && c.Some?
    && if f.SubMessage? && Recurses(c.value) then
         && g.SubMessage? && g.num == f.num && g.doc.tail == End && g.doc.fields != []
         && Extracts(f.doc, c.value.subfields, g.doc.fields)
       else g == f
  }

  /** `f` is not reported: no entry for it, or nothing of it is reported. */
  ghost predicate Drops(f: Field, config: Config)
    decreases f, 0
  {
    var c := ConfigFor(config, f.num);
    c.Some? ==> f.SubMessage? && Recurses(c.value) && Extracts(f.doc, c.value.subfields, [])
  }

  /** The reported fields of a list, in the order of the list. */
  ghost predicate Selects(fs: seq<Field>, config: Config, kept: seq<Field>)
    decreases fs, 1
  {
    if fs == [] then kept == []
    else
      var n := |fs| - 1;
      || (Drops(fs[n], config) && Selects(fs[..n], config, kept))
      || (kept != [] && Keeps(fs[n], config, kept[|kept| - 1]) && Selects(fs[..n], config, kept[..|kept| - 1]))
  }

  /** The reported fields of a message, sorted by number; a message with an unknown wire type reports nothing. */
  ghost predicate Extracts(d: Doc, config: Config, out: seq<Field>)
    decreases d, 2
  {
    if d.tail.BadWire? then out == []
    else Sorted(out) && exists kept :: Selects(d.fields, config, kept) && Permutation(out, kept)
  }

  // ---------- the extracted tree is determined up to the order of equal-numbered fields ----------

  lemma {:induction false} PermutationLength(a: seq<Field>, b: seq<Field>)
    requires Permutation(a, b)
    ensures |a| == |b|
  {
    assert |multiset(a)| == |multiset(b)|;
  }

  lemma {:induction false} SelectsUnique(fs: seq<Field>, config: Config, a: seq<Field>, b: seq<Field>)
    requires Selects(fs, config, a) && Selects(fs, config, b)
    ensures Pairwise(a, a, b)
    decreases fs, 1
  {
    if fs != [] {
      var n := |fs| - 1;
      var f := fs[n];
      NotBoth(f, config, a, b);
      if Drops(f, config) {
        SelectsUnique(fs[..n], config, a, b);
      } else {
        var a', b' := a[..|a| - 1], b[..|b| - 1];
        var g, h := a[|a| - 1], b[|b| - 1];
        SelectsUnique(fs[..n], config, a', b');
        KeepsUnique(f, config, g, h);
        assert forall i :: 0 <= i < |a'| ==> a[i] == a'[i] && b[i] == b'[i];
      }
    }
  }

  /** A field cannot be both dropped and kept. */
  lemma {:induction false} NotBoth(f: Field, config: Config, a: seq<Field>, b: seq<Field>)
    ensures !(Drops(f, config) && a != [] && Keeps(f, config, a[|a| - 1]))
    ensures !(Drops(f, config) && b != [] && Keeps(f, config, b[|b| - 1]))
    decreases f, 0
  {
    var c := ConfigFor(config, f.num);
    if Drops(f, config) && c.Some? {
      if a != [] && Keeps(f, config, a[|a| - 1]) {
        ExtractsUnique(f.doc, c.value.subfields, [], a[|a| - 1].doc.fields);
      }
      if b != [] && Keeps(f, config, b[|b| - 1]) {
        ExtractsUnique(f.doc, c.value.subfields, [], b[|b| - 1].doc.fields);
      }
    }
  }

  lemma {:induction false} KeepsUnique(f: Field, config: Config, g: Field, h: Field)
    requires Keeps(f, config, g) && Keeps(f, config, h)
    ensures SameField(g, h)
    decreases f, 0
  {
    var c := ConfigFor(config, f.num).value;
    if f.SubMessage? && Recurses(c) {
      ExtractsUnique(f.doc, c.subfields, g.doc.fields, h.doc.fields);
    }
  }

  /** Two extractions of one message are the same tree up to the order of fields. */
  lemma {:induction false} ExtractsUnique(d: Doc, config: Config, a: seq<Field>, b: seq<Field>)
    requires Extracts(d, config, a) && Extracts(d, config, b)
    ensures SameFields(a, b) && |a| == |b|
    decreases d, 2
  {
    if d.tail.BadWire? {
      assert Permutation(a, a) && Permutation(b, b) && Pairwise(a, a, b);
    } else {
      var ka :| Selects(d.fields, config, ka) && Permutation(a, ka);
      var kb :| Selects(d.fields, config, kb) && Permutation(b, kb);
      SelectsUnique(d.fields, config, ka, kb);
      PermutationLength(a, ka);
      PermutationLength(b, kb);
      assert Pairwise(a, ka, kb) by {
        forall i | 0 <= i < |ka| ensures ka[i] in a {
          assert ka[i] in multiset(ka);
        }
      }
    }
  }

  // ---------- extracting again changes nothing ----------

  lemma {:induction false} KeptIsFixed(f: Field, config: Config, g: Field)
    requires Keeps(f, config, g)
    ensures Keeps(g, config, g)
    decreases f, 0
  {
    var c := ConfigFor(config, f.num).value;
    if f.SubMessage? && Recurses(c) {
      ExtractedIsFixed(f.doc, c.subfields, g.doc.fields);
      assert g.doc == Doc(g.doc.fields, End);
    }
  }

  lemma {:induction false} SelectedAreFixed(fs: seq<Field>, config: Config, kept: seq<Field>)
    requires Selects(fs, config, kept)
    ensures forall g :: g in kept ==> Keeps(g, config, g)
    decreases fs, 1
  {
    if fs != [] {
      var n := |fs| - 1;
      if Drops(fs[n], config) && Selects(fs[..n], config, kept) {
        SelectedAreFixed(fs[..n], config, kept);
      } else {
        SelectedAreFixed(fs[..n], config, kept[..|kept| - 1]);
        KeptIsFixed(fs[n], config, kept[|kept| - 1]);
      }
    }
  }

  lemma {:induction false} FixedFieldsSelectThemselves(fs: seq<Field>, config: Config)
    requires forall g :: g in fs ==> Keeps(g, config, g)
    ensures Selects(fs, config, fs)
  {
    if fs != [] {
      FixedFieldsSelectThemselves(fs[..|fs| - 1], config);
    }
  }

  /** What was extracted is its own extraction. */
  lemma {:induction false} ExtractedIsFixed(d: Doc, config: Config, out: seq<Field>)
    requires Extracts(d, config, out)
    ensures Extracts(Doc(out, End), config, out)
    decreases d, 2
  {
    if d.tail.BadWire? {
      assert Selects([], config, []) && Permutation(out, []);
    } else {
      var kept :| Selects(d.fields, config, kept) && Permutation(out, kept);
      SelectedAreFixed(d.fields, config, kept);
      forall g | g in out ensures Keeps(g, config, g) {
        assert g in multiset(out);
      }
      FixedFieldsSelectThemselves(out, config);
      assert Permutation(out, out);
    }
  }

  /** Extracting an extraction yields the same tree up to the order of equal-numbered fields. */
  lemma {:induction false} ExtractionIsIdempotent(d: Doc, config: Config, out: seq<Field>, again: seq<Field>)
    requires Extracts(d, config, out) && Extracts(Doc(out, End), config, again)
    ensures SameFields(out, again) && Sorted(out) && Sorted(again)
  {
    ExtractedIsFixed(d, config, out);
    ExtractsUnique(Doc(out, End), config, out, again);
  }

  /** A message entry without subfields reports nothing at all. */
  lemma {:induction false} NoSubfieldsReportsNothing(d: Doc, out: seq<Field>)
    requires Extracts(d, [], out)
    ensures out == []
  {
    if !d.tail.BadWire? {
      var kept :| Selects(d.fields, [], kept) && Permutation(out, kept);
      EmptyConfigSelectsNothing(d.fields, kept);
      PermutationLength(out, kept);
    }
  }

  lemma {:induction false} EmptyConfigSelectsNothing(fs: seq<Field>, kept: seq<Field>)
    requires Selects(fs, [], kept)
    ensures kept == []
  {
    if fs != [] {
      EmptyConfigSelectsNothing(fs[..|fs| - 1], kept);
    }
  }

  // ---------- an extraction is never longer than its message ----------

  lemma {:induction false} EncodeConcat(a: seq<Field>, b: seq<Field>)
    ensures EncodeFields(a + b) == EncodeFields(a) + EncodeFields(b)
  {
    if a == [] {
      assert a + b == b;
    } else {
      assert (a + b)[1..] == a[1..] + b;
      EncodeConcat(a[1..], b);
    }
  }

  lemma {:induction false} EncodeSnoc(a: seq<Field>, f: Field)
    ensures EncodeFields(a + [f]) == EncodeFields(a) + EncodeField(f)
  {
    EncodeConcat(a, [f]);
    assert EncodeFields([f]) == EncodeField(f);
  }

  lemma {:induction false} MultisetWithout(s: seq<Field>, k: nat)
    requires k < |s|
    ensures multiset(s[..k] + s[k + 1..]) == multiset(s) - multiset{s[k]}
  {
    assert s == s[..k] + [s[k]] + s[k + 1..];
  }

  lemma {:induction false} SizeWithout(s: seq<Field>, k: nat)
    requires k < |s|
    ensures |EncodeFields(s)| == |EncodeField(s[k])| + |EncodeFields(s[..k] + s[k + 1..])|
  {
    assert s == s[..k] + ([s[k]] + s[k + 1..]);
    EncodeConcat(s[..k], [s[k]] + s[k + 1..]);
    EncodeConcat([s[k]], s[k + 1..]);
    EncodeConcat(s[..k], s[k + 1..]);
    assert EncodeFields([s[k]]) == EncodeField(s[k]);
  }

  /** A permutation of a nonempty list has its first element somewhere, and the rests are permutations too. */
  lemma {:induction false} PickCommon(a: seq<Field>, b: seq<Field>) returns (k: nat)
    requires Permutation(a, b) && a != []
    ensures k < |b| && b[k] == a[0] && Permutation(a[..0] + a[1..], b[..k] + b[k + 1..])
  {
    assert a[0] in multiset(b);
    k :| 0 <= k < |b| && b[k] == a[0];
    MultisetWithout(a, 0);
    MultisetWithout(b, k);
  }

  lemma {:induction false} PermutationKeepsSize(a: seq<Field>, b: seq<Field>)
    requires Permutation(a, b)
    ensures |EncodeFields(a)| == |EncodeFields(b)|
    decreases |a|
  {
    if a == [] {
      PermutationLength(a, b);
    } else {
      var k := PickCommon(a, b);
      PermutationKeepsSize(a[..0] + a[1..], b[..k] + b[k + 1..]);
      SizeWithout(a, 0);
      SizeWithout(b, k);
    }
  }

  lemma {:induction false} KeptIsNoLonger(f: Field, config: Config, g: Field)
    requires Keeps(f, config, g)
    ensures |EncodeField(g)| <= |EncodeField(f)|
    decreases f, 0
  {
    var c := ConfigFor(config, f.num).value;
    if f.SubMessage? && Recurses(c) {
      ExtractedIsNoLonger(f.doc, c.subfields, g.doc.fields);
      assert EncodeDoc(g.doc) == EncodeFields(g.doc.fields);
      PutIsMonotone(|EncodeDoc(g.doc)|, |EncodeDoc(f.doc)|);
    }
  }

  lemma {:induction false} SelectedAreNoLonger(fs: seq<Field>, config: Config, kept: seq<Field>)
    requires Selects(fs, config, kept)
    ensures |EncodeFields(kept)| <= |EncodeFields(fs)|
    decreases fs, 1
  {
    if fs != [] {
      var n := |fs| - 1;
      assert fs == fs[..n] + [fs[n]];
      EncodeSnoc(fs[..n], fs[n]);
      if Drops(fs[n], config) && Selects(fs[..n], config, kept) {
        SelectedAreNoLonger(fs[..n], config, kept);
      } else {
        var m := |kept| - 1;
        assert kept == kept[..m] + [kept[m]];
        EncodeSnoc(kept[..m], kept[m]);
        SelectedAreNoLonger(fs[..n], config, kept[..m]);
        KeptIsNoLonger(fs[n], config, kept[m]);
      }
    }
  }

  lemma {:induction false} ExtractedIsNoLonger(d: Doc, config: Config, out: seq<Field>)
    requires Extracts(d, config, out)
    ensures |EncodeFields(out)| <= |EncodeDoc(d)|
    decreases d, 2
  {
    if !d.tail.BadWire? {
      var kept :| Selects(d.fields, config, kept) && Permutation(out, kept);
      SelectedAreNoLonger(d.fields, config, kept);
      PermutationKeepsSize(out, kept);
    }
  }
}
