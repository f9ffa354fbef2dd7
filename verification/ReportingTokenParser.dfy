/**
 extractReportingTokenContent itself: one pass over the bytes, recursion into configured messages, a sort by field number
 and a concatenation.  It is proved on all bytes that fit; the ghost tree, where one is given, says what they encode.
 */
module ReportingTokenParser {
  import opened Prelude
  import opened Varint
  import opened WireTree
  import opened ReportingToken
  import opened ReportingTokenReading
  import opened ReportingTokenWalk
  import opened ReportingTokenBytes

  datatype Piece = Piece(num: nat, bytes: Bytes)

  method GetConfigForField(fields: Config, num: int) returns (r: Option<ReportingField>)
    ensures r == ConfigFor(fields, num)
  {
    for i := 0 to |fields|
      invariant ConfigFor(fields, num) == ConfigFor(fields[i..], num)
    {
      if fields[i].num == num {
        return Some(fields[i]);
      }
      assert fields[i..][1..] == fields[i + 1..];
    }
    r := None;
  }

  // ---------- sorting ----------

  function TotalLength(ps: seq<Piece>): nat {
    if ps == [] then 0 else TotalLength(ps[..|ps| - 1]) + |ps[|ps| - 1].bytes|
  }

  lemma {:induction false} TotalLengthConcat(a: seq<Piece>, b: seq<Piece>)
    ensures TotalLength(a + b) == TotalLength(a) + TotalLength(b)
  {
    if b == [] {
      assert a + b == a;
    } else {
      assert (a + b)[..|a + b| - 1] == a + b[..|b| - 1];
      TotalLengthConcat(a, b[..|b| - 1]);
    }
  }

  lemma {:induction false} TotalLengthInsert(ps: seq<Piece>, k: nat, p: Piece)
    requires k <= |ps|
    ensures TotalLength(ps[..k] + [p] + ps[k..]) == TotalLength(ps) + |p.bytes|
  {
    TotalLengthConcat(ps[..k] + [p], ps[k..]);
    TotalLengthConcat(ps[..k], [p]);
    TotalLengthConcat(ps[..k], ps[k..]);
    assert [p][..0] == [] && ps[..k] + ps[k..] == ps;
  }

  predicate SortedPieces(ps: seq<Piece>) {
    forall i, j :: 0 <= i < j < |ps| ==> ps[i].num <= ps[j].num
  }

  /** The pieces are the encodings of the trees. */
  ghost predicate Encodes(ps: seq<Piece>, trees: seq<Field>) {
    && |ps| == |trees|
    && forall j :: 0 <= j < |ps| ==> ps[j] == Piece(trees[j].num, EncodeField(trees[j]))
  }

  /** sort.Slice: some sorted permutation; which one among equal numbers is not promised. */
  method SortByNumber(ps: seq<Piece>) returns (sorted: seq<Piece>)
    ensures SortedPieces(sorted) && multiset(sorted) == multiset(ps)
  {
    sorted := [];
    for n := 0 to |ps|
      invariant SortedPieces(sorted) && multiset(sorted) == multiset(ps[..n])
    {
      var k := Slot(sorted, ps[n].num);
      InsertKeepsSorted(sorted, k, ps[n]);
      InsertKeepsElements(sorted, k, ps, n);
      sorted := sorted[..k] + [ps[n]] + sorted[k..];
    }
    assert ps[..|ps|] == ps;
  }

  /** After every piece that does not have a higher number. */
  method Slot(sorted: seq<Piece>, num: nat) returns (k: nat)
    ensures k <= |sorted| && (k > 0 ==> sorted[k - 1].num <= num)
    ensures forall j :: k <= j < |sorted| ==> sorted[j].num > num
  {
    k := |sorted|;
    while k > 0 && sorted[k - 1].num > num
      invariant k <= |sorted|
      invariant forall j :: k <= j < |sorted| ==> sorted[j].num > num
    {
      k := k - 1;
    }
  }

  lemma {:induction false} InsertKeepsSorted(sorted: seq<Piece>, k: nat, p: Piece)
    requires SortedPieces(sorted) && k <= |sorted| && (k > 0 ==> sorted[k - 1].num <= p.num)
    requires forall j :: k <= j < |sorted| ==> sorted[j].num > p.num
    ensures SortedPieces(sorted[..k] + [p] + sorted[k..])
  {
  }

  lemma {:induction false} InsertKeepsElements(sorted: seq<Piece>, k: nat, ps: seq<Piece>, n: nat)
    requires k <= |sorted| && n < |ps| && multiset(sorted) == multiset(ps[..n])
    ensures multiset(sorted[..k] + [ps[n]] + sorted[k..]) == multiset(ps[..n + 1])
  {
    assert sorted == sorted[..k] + sorted[k..];
    assert ps[..n + 1] == ps[..n] + [ps[n]];
  }

  lemma {:induction false} IndexOf<T>(s: seq<T>, x: T) returns (i: nat)
    requires x in multiset(s)
    ensures i < |s| && s[i] == x
  {
    assert x in s;
    i :| 0 <= i < |s| && s[i] == x;
  }

  /** Where the first of the rearranged pieces was, and what is left without it. */
  lemma {:induction false} TakeFirst(ps: seq<Piece>, rearranged: seq<Piece>) returns (i: nat)
    requires multiset(rearranged) == multiset(ps) && rearranged != []
    ensures i < |ps| && ps[i] == rearranged[0] && multiset(rearranged[1..]) == multiset(ps[..i] + ps[i + 1..])
  {
    i := IndexOf(ps, rearranged[0]);
    Without(ps, i);
    assert rearranged == [rearranged[0]] + rearranged[1..];
    Cancel(multiset(rearranged[1..]), multiset(ps[..i] + ps[i + 1..]), multiset{ps[i]});
  }

  lemma {:induction false} Cancel<T>(a: multiset<T>, b: multiset<T>, c: multiset<T>)
    requires a + c == b + c
    ensures a == b
  {
    assert a == a + c - c;
  }

  lemma {:induction false} Without<T>(s: seq<T>, i: nat)
    requires i < |s|
    ensures multiset(s) == multiset(s[..i] + s[i + 1..]) + multiset{s[i]}
  {
    assert s == s[..i] + ([s[i]] + s[i + 1..]);
  }

  lemma {:induction false} SameTotal(ps: seq<Piece>, rearranged: seq<Piece>)
    requires multiset(rearranged) == multiset(ps)
    ensures TotalLength(rearranged) == TotalLength(ps)
    decreases |rearranged|
  {
    if rearranged == [] {
      assert |multiset(ps)| == 0;
    } else {
      var i := TakeFirst(ps, rearranged);
      var left := ps[..i] + ps[i + 1..];
      SameTotal(left, rearranged[1..]);
      TotalLengthInsert(left, i, ps[i]);
      TotalLengthInsert(rearranged[1..], 0, ps[i]);
      assert left[..i] + [ps[i]] + left[i..] == ps;
      assert rearranged[1..][..0] + [ps[i]] + rearranged[1..][0..] == rearranged;
    }
  }

  /** The trees, rearranged along with their encodings. */
  lemma {:induction false} SameTrees(ps: seq<Piece>, trees: seq<Field>, rearranged: seq<Piece>) returns (order: seq<Field>)
    requires multiset(rearranged) == multiset(ps) && Encodes(ps, trees)
    ensures Encodes(rearranged, order) && Permutation(order, trees)
    decreases |rearranged|
  {
    if rearranged == [] {
      assert |multiset(ps)| == 0;
      order := [];
    } else {
      var i := TakeFirst(ps, rearranged);
      var left := trees[..i] + trees[i + 1..];
      var rest := SameTrees(ps[..i] + ps[i + 1..], left, rearranged[1..]);
      order := [trees[i]] + rest;
      FirstEncodes(rearranged, trees[i], rest);
      Without(trees, i);
    }
  }

  lemma {:induction false} FirstEncodes(ps: seq<Piece>, first: Field, rest: seq<Field>)
    requires ps != [] && ps[0] == Piece(first.num, EncodeField(first)) && Encodes(ps[1..], rest)
    ensures Encodes(ps, [first] + rest)
  {
    assert ps == [ps[0]] + ps[1..];
  }

  lemma {:induction false} SortedTrees(ps: seq<Piece>, trees: seq<Field>)
    requires Encodes(ps, trees) && SortedPieces(ps)
    ensures Sorted(trees)
  {
    forall i, j | 0 <= i < j < |trees| ensures trees[i].num <= trees[j].num {
      assert ps[i].num <= ps[j].num;
    }
  }

  method Concatenate(ps: seq<Piece>, ghost order: seq<Field>) returns (out: Bytes)
    ensures |out| == TotalLength(ps)
    ensures Encodes(ps, order) ==> out == EncodeFields(order)
  {
    out := [];
    for j := 0 to |ps|
      invariant |out| == TotalLength(ps[..j])
      invariant Encodes(ps, order) ==> out == EncodeFields(order[..j])
    {
      assert ps[..j + 1][..j] == ps[..j];
      if Encodes(ps, order) {
        assert order[..j + 1] == order[..j] + [order[j]];
        EncodeSnoc(order[..j], order[j]);
      }
      out := out + ps[j].bytes;
    }
    assert ps[..|ps|] == ps && (Encodes(ps, order) ==> order[..|ps|] == order);
  }

  // ---------- where the loop is in the tree ----------

  /** What has been read so far: the first k fields, of which `kept` are reported. */
  ghost predicate Progress(data: Bytes, i: nat, doc: Doc, k: nat, config: Config, kept: seq<Field>) {
    && i <= |data| && k <= |doc.fields|
    && data[i..] == After(doc, k)
    && Selects(doc.fields[..k], config, kept)
  }

  lemma {:induction false} Dropped(data: Bytes, i: nat, doc: Doc, k: nat, config: Config, kept: seq<Field>)
    requires Progress(data, i, doc, k, config, kept) && k < |doc.fields| && Drops(doc.fields[k], config)
    requires data[i..] == EncodeField(doc.fields[k]) + After(doc, k + 1)
    ensures Progress(data, i + |EncodeField(doc.fields[k])|, doc, k + 1, config, kept)
  {
    Slices(data, i, EncodeField(doc.fields[k]), After(doc, k + 1));
    assert doc.fields[..k + 1][..k] == doc.fields[..k];
  }

  lemma {:induction false} Reported(data: Bytes, i: nat, doc: Doc, k: nat, config: Config, kept: seq<Field>, g: Field)
    requires Progress(data, i, doc, k, config, kept) && k < |doc.fields| && Keeps(doc.fields[k], config, g)
    requires data[i..] == EncodeField(doc.fields[k]) + After(doc, k + 1)
    ensures Progress(data, i + |EncodeField(doc.fields[k])|, doc, k + 1, config, kept + [g])
  {
    Slices(data, i, EncodeField(doc.fields[k]), After(doc, k + 1));
    assert doc.fields[..k + 1][..k] == doc.fields[..k];
    assert (kept + [g])[..|kept|] == kept;
  }

  /** With all fields read, only the tail is left. */
  lemma {:induction false} AtTail(data: Bytes, i: nat, doc: Doc, config: Config, kept: seq<Field>)
    requires Progress(data, i, doc, |doc.fields|, config, kept) && ValidTail(doc.tail)
    ensures doc.tail.End? <==> i == |data|
    ensures doc.tail.BadTag? ==> Uvarint(data[i..]).n <= 0
    ensures doc.tail.BadWire? ==>
              Uvarint(data[i..]) == Decoded(doc.tail.tag, |Put(doc.tail.tag)|) && i + |Put(doc.tail.tag)| <= |data|
  {
    assert doc.fields[|doc.fields|..] == [];
    assert data[i..] == EncodeTail(doc.tail);
    if doc.tail.BadWire? {
      UvarintPut(doc.tail.tag, doc.tail.rest);
    }
  }

  /** The loop ends with every field read. */
  lemma {:induction false} AllRead(data: Bytes, i: nat, doc: Doc, k: nat, config: Config, kept: seq<Field>)
    requires Progress(data, i, doc, k, config, kept) && ValidTail(doc.tail)
    requires i == |data| || (k == |doc.fields| && !doc.tail.BadWire?)
    ensures !doc.tail.BadWire? && Selects(doc.fields, config, kept)
  {
    if k < |doc.fields| {
      FieldComesNext(data, i, doc, k);
      assert false;
    }
    AtTail(data, i, doc, config, kept);
    assert doc.fields[..k] == doc.fields;
  }

  lemma {:induction false} NothingMeansEmpty(fs: seq<Field>)
    ensures EncodeFields(fs) == [] <==> fs == []
  {
  }

  /** What a turn of the loop meets after the last field: no tag, or a tag of unknown wire type. */
  lemma {:induction false} TailComesNext(data: Bytes, i: nat, doc: Doc, config: Config, kept: seq<Field>)
    requires ValidTail(doc.tail) && i < |data| && Progress(data, i, doc, |doc.fields|, config, kept)
    ensures Uvarint(data[i..]).n <= 0 ==> doc.tail.BadTag?
    ensures Uvarint(data[i..]).n > 0 ==>
              && i + Uvarint(data[i..]).n <= |data| && doc.tail.BadWire?
              && !KnownWire(Uvarint(data[i..]).value % 8)
  {
    AtTail(data, i, doc, config, kept);
  }

  // ---------- what is known about the data ----------

  /** The tree some data encodes, if it is known to be a canonical encoding, and how far the loop has come in it. */
  datatype Place = Unknown | Known(doc: Doc, k: nat, kept: seq<Field>)

  ghost predicate PlaceOk(p: Place, data: Bytes, i: nat, config: Config, fields: seq<Piece>) {
    p.Known? ==>
      ValidDoc(p.doc) && Fits(p.doc, config) && Progress(data, i, p.doc, p.k, config, p.kept) && Encodes(fields, p.kept)
  }

  // ---------- one turn ----------

  /** Marks the turns at which `Describes` is used. */
  predicate Probe(data: Bytes, i: nat, config: Config) { true }

  /** `turn` stands for the extractor's own turns. */
  ghost predicate Describes(turn: Turns) {
    forall data, i, config {:trigger Probe(data, i, config)} ::
      Probe(data, i, config) ==> turn(data, i, config) == TurnAt(data, i, config)
  }

  /** The value at j lies within the message, and so does the content of a configured one; the walk is safe in it and after. */
  ghost predicate SafeValue(turn: Turns, data: Bytes, j: nat, w: nat, v: Decoded, config: Config, cfg: Option<ReportingField>)
  {
    var end := PositionAfter(j, w, v);
    && j <= end <= |data| && Safe(turn, data, end, config)
    && (IsMessage(w, cfg) ==>
          && 0 <= v.n && j + v.n + v.value == end && (v.n == 0 ==> v.value == 0)
          && Safe(turn, data[j + v.n..end], 0, cfg.value.subfields))
  }

  /** A tag as the loop takes it apart; n is the number of bytes read, or not positive. */
  datatype Tag = Tag(n: int, value: nat, num: nat, wire: nat)

  function TakeApart(tag: Decoded): Tag { Tag(tag.n, tag.value, tag.value / 8, tag.value % 8) }

  ghost predicate SafeReads(turn: Turns, data: Bytes, i: nat, config: Config, tag: Tag, v: Decoded) {
    tag.n > 0 ==>
      && i + tag.n <= |data|
      && (KnownWire(tag.wire) ==> SafeValue(turn, data, i + tag.n, tag.wire, v, config, ConfigFor(config, tag.num)))
  }

  lemma {:induction false} SafeTurn(turn: Turns, data: Bytes, i: nat, config: Config, tag: Decoded, v: Decoded)
    requires i < |data| < INT_LIMIT && Readable(tag, |data| - i) && (tag.n > 0 ==> Readable(v, |data| - i - tag.n))
    requires turn(data, i, config) == TurnFrom(|data|, i, tag, v, ConfigFor(config, tag.value / 8))
    requires Safe(turn, data, i, config)
    ensures SafeReads(turn, data, i, config, TakeApart(tag), v)
  {
    if tag.n > 0 && KnownWire(tag.value % 8) {
      ValueFitsIff(|data|, i + tag.n, tag.value % 8, v);
      MessageSliceFitsIff(|data|, i + tag.n, v);
    }
  }

  lemma {:induction false} SafeTurnWith(read: Reader, turn: Turns, data: Bytes, i: nat, config: Config)
    requires Reliable(read) && i < |data| < INT_LIMIT
    requires turn(data, i, config) == TurnWith(read, data, i, config) && Safe(turn, data, i, config)
    ensures var tag := read(data[i..]); SafeReads(turn, data, i, config, TakeApart(tag), ValueAfter(read, data, i, tag))
  {
    var tag := read(data[i..]);
    assert Readable(tag, |data[i..]|);
    if tag.n > 0 {
      assert Readable(read(data[i + tag.n..]), |data[i + tag.n..]|);
    }
    SafeTurn(turn, data, i, config, tag, ValueAfter(read, data, i, tag));
  }

  /** Writing a number again takes no more bytes than were read for it. */
  predicate Shortest(r: Decoded) { r.n > 0 ==> |Put(r.value)| <= r.n }

  lemma {:induction false} PutIsShortest(s: Bytes, i: nat)
    requires i < MAX_VARINT_LEN && ReadFrom(s, i).n > 0
    ensures |Put(ReadFrom(s, i).value)| <= ReadFrom(s, i).n - i
    decreases MAX_VARINT_LEN - i
  {
    if s[0] >= 128 {
      PutIsShortest(s[1..], i + 1);
      PutGrowsByOne(s[0] - 128, ReadFrom(s[1..], i + 1).value);
    }
  }

  lemma {:induction false} PutGrowsByOne(low: nat, rest: nat)
    requires low < 128
    ensures |Put(low + 128 * rest)| <= 1 + |Put(rest)|
  {
    if rest > 0 {
      assert (low + 128 * rest) / 128 == rest;
    }
  }

  lemma {:induction false} UvarintIsShortest()
    ensures forall s :: Shortest(Uvarint(s))
  {
    forall s ensures Shortest(Uvarint(s)) {
      if Uvarint(s).n > 0 {
        PutIsShortest(s, 0);
      }
    }
  }

  /** f lies at i. */
  ghost predicate LiesAt(data: Bytes, i: nat, f: Field) {
    i + |EncodeField(f)| <= |data| && data[i..i + |EncodeField(f)|] == EncodeField(f)
  }

  /** Its value, at j with the varint v, ends where f ends. */
  ghost predicate EndsWith(i: nat, j: nat, v: Decoded, f: Field) {
    KnownWire(WireType(f)) && PositionAfter(j, WireType(f), v) == i + |EncodeField(f)|
  }

  /** If f is a message, its content comes after the varint. */
  ghost predicate ContentAt(data: Bytes, i: nat, j: nat, v: Decoded, f: Field) {
    var end := i + |EncodeField(f)|;
    f.SubMessage? && end <= |data| ==> j <= j + v.n <= end && data[j + v.n..end] == EncodeDoc(f.doc)
  }

  ghost predicate ValueOf(data: Bytes, i: nat, j: nat, v: Decoded, f: Field) {
    LiesAt(data, i, f) && EndsWith(i, j, v, f) && ContentAt(data, i, j, v, f)
  }

  ghost predicate FieldShows(data: Bytes, i: nat, f: Field, tag: Tag, v: Decoded) {
    tag.n > 0 && tag.value == TagOf(f) && tag.num == f.num && tag.wire == WireType(f) && ValueOf(data, i, i + tag.n, v, f)
  }

  ghost predicate TailShows(t: Tail, tag: Tag) {
    if tag.n <= 0 then !t.BadWire? else t.BadWire? && !KnownWire(tag.wire)
  }

  /** What the tree says about the tag and the varint after it. */
  ghost predicate Shows(data: Bytes, i: nat, p: Place, tag: Tag, v: Decoded) {
    p.Known? ==>
      if p.k >= |p.doc.fields| then TailShows(p.doc.tail, tag) else FieldShows(data, i, p.doc.fields[p.k], tag, v)
  }

  lemma {:induction false} FieldIsShown(data: Bytes, i: nat, f: Field, rest: Bytes, tag: Decoded)
    requires FieldAt(data, i, f, rest) && 0 < tag.n <= |data| - i && tag.value == TagOf(f)
    requires data[i + tag.n..] == Body(f) + rest && |EncodeField(f)| == tag.n + |Body(f)|
    ensures FieldShows(data, i, f, TakeApart(tag), ValueAfter(Uvarint, data, i, tag))
  {
    ValueIsShown(data, i, i + tag.n, f, rest);
    ValueComesAfter(data, i, tag);
    TakenApart(data, i, f, tag, Uvarint(data[i + tag.n..]));
  }

  lemma {:induction false} ValueComesAfter(data: Bytes, i: nat, tag: Decoded)
    requires i <= |data| && 0 < tag.n <= |data| - i
    ensures ValueAfter(Uvarint, data, i, tag) == Uvarint(data[i + tag.n..])
  {
  }

  lemma {:induction false} TakenApart(data: Bytes, i: nat, f: Field, tag: Decoded, v: Decoded)
    requires tag.n > 0 && tag.value == TagOf(f) && ValueOf(data, i, i + tag.n, v, f)
    ensures FieldShows(data, i, f, TakeApart(tag), v)
  {
    TagSplits(f);
  }

  lemma {:induction false} ValueIsShown(data: Bytes, i: nat, j: nat, f: Field, rest: Bytes)
    requires FieldAt(data, i, f, rest) && i <= j <= |data|
    requires data[j..] == Body(f) + rest && i + |EncodeField(f)| == j + |Body(f)|
    ensures ValueOf(data, i, j, Uvarint(data[j..]), f)
  {
    Slices(data, i, EncodeField(f), rest);
    FieldValue(data, i, j, f, rest);
    ContentIsShown(data, i, j, f, rest);
  }

  lemma {:induction false} ContentIsShown(data: Bytes, i: nat, j: nat, f: Field, rest: Bytes)
    requires FieldAt(data, i, f, rest) && i <= j <= |data|
    requires data[j..] == Body(f) + rest && i + |EncodeField(f)| == j + |Body(f)|
    ensures ContentAt(data, i, j, Uvarint(data[j..]), f)
  {
    if f.SubMessage? {
      var start := BytesStart(data, j, f, rest);
    }
  }

  lemma {:induction false} TailIsShown(data: Bytes, i: nat, doc: Doc, config: Config, kept: seq<Field>)
    requires ValidTail(doc.tail) && i < |data| && Progress(data, i, doc, |doc.fields|, config, kept)
    ensures TailShows(doc.tail, TakeApart(Uvarint(data[i..])))
  {
    TailComesNext(data, i, doc, config, kept);
  }

  lemma {:induction false} NextFieldIsShown(data: Bytes, i: nat, doc: Doc, k: nat)
    requires i < |data| < INT_LIMIT && ValidDoc(doc) && k < |doc.fields| && data[i..] == After(doc, k)
    ensures var tag := Uvarint(data[i..]);
            FieldShows(data, i, doc.fields[k], TakeApart(tag), ValueAfter(Uvarint, data, i, tag))
  {
    assert doc.fields[k] in doc.fields;
    FieldComesNext(data, i, doc, k);
    TagIsRead(data, i, doc.fields[k], After(doc, k + 1));
    FieldIsShown(data, i, doc.fields[k], After(doc, k + 1), Uvarint(data[i..]));
  }

  lemma {:induction false} PlaceIsShown(data: Bytes, i: nat, config: Config, p: Place)
    requires i < |data| < INT_LIMIT
    requires p.Known? ==> ValidDoc(p.doc) && Progress(data, i, p.doc, p.k, config, p.kept)
    ensures var tag := Uvarint(data[i..]); Shows(data, i, p, TakeApart(tag), ValueAfter(Uvarint, data, i, tag))
  {
    if p.Known? {
      if p.k == |p.doc.fields| {
        TailIsShown(data, i, p.doc, config, p.kept);
      } else {
        NextFieldIsShown(data, i, p.doc, p.k);
      }
    }
  }

  lemma {:induction false} PeekIsSafe(data: Bytes, i: nat, config: Config, turn: Turns)
    requires i < |data| < INT_LIMIT && Describes(turn) && Safe(turn, data, i, config)
    ensures var tag := Uvarint(data[i..]); SafeReads(turn, data, i, config, TakeApart(tag), ValueAfter(Uvarint, data, i, tag))
  {
    assert Probe(data, i, config);
    UvarintIsReliable();
    SafeTurnWith(Uvarint, turn, data, i, config);
  }

  lemma {:induction false} ShortestWith(read: Reader, data: Bytes, i: nat)
    requires i < |data| && forall s :: Shortest(read(s))
    ensures var tag := read(data[i..]); Shortest(tag) && Shortest(ValueAfter(read, data, i, tag))
  {
  }

  /** Reads the tag at i and the varint after it. */
  method Peek(data: Bytes, i: nat, config: Config, ghost turn: Turns, ghost place: Place) returns (tag: Tag, v: Decoded)
    requires i < |data| < INT_LIMIT && Describes(turn) && Safe(turn, data, i, config)
    requires place.Known? ==> ValidDoc(place.doc) && Progress(data, i, place.doc, place.k, config, place.kept)
    ensures SafeReads(turn, data, i, config, tag, v) && Shows(data, i, place, tag, v)
    ensures Shortest(Decoded(tag.value, tag.n)) && Shortest(v)
  {
    var t := Uvarint(data[i..]);
    tag, v := TakeApart(t), ValueAfter(Uvarint, data, i, t);
    PeekIsSafe(data, i, config, turn);
    UvarintIsShortest();
    ShortestWith(Uvarint, data, i);
    PlaceIsShown(data, i, config, place);
  }

  // ---------- the extractor ----------

  lemma {:induction false} MessageEncodes(g: Field, tag: nat, sub: Bytes)
    requires g.SubMessage? && g.doc.tail == End && tag == TagOf(g) && sub == EncodeFields(g.doc.fields) != []
    ensures EncodeField(g) == Put(tag) + (Put(|sub|) + sub) && g.doc.fields != []
  {
    assert EncodeDoc(g.doc) == sub;
  }

  /** What is reported of a configured message: what is extracted from it, unless that is nothing. */
  ghost predicate ReportsMessage(f: Field, subfields: Config, piece: Option<Piece>, g: Field)
    requires f.SubMessage?
  {
    if piece.None? then Extracts(f.doc, subfields, [])
    else
      && g.SubMessage? && g.num == f.num && g.doc.tail == End && g.doc.fields != []
      && Extracts(f.doc, subfields, g.doc.fields) && piece.value == Piece(g.num, EncodeField(g))
  }

  ghost predicate Reports(f: Field, config: Config, piece: Option<Piece>, g: Field) {
    if piece.None? then Drops(f, config) else Keeps(f, config, g) && piece.value == Piece(g.num, EncodeField(g))
  }

  lemma {:induction false} MessageIsReported(f: Field, config: Config, piece: Option<Piece>, g: Field)
    requires f.SubMessage? && IsMessage(WIRE_BYTES, ConfigFor(config, f.num))
    requires ReportsMessage(f, ConfigFor(config, f.num).value.subfields, piece, g)
    ensures Reports(f, config, piece, g)
  {
  }

  lemma {:induction false} PlainIsReported(f: Field, config: Config, bytes: Bytes)
    requires ConfigFor(config, f.num).Some? && !IsMessage(WireType(f), ConfigFor(config, f.num)) && bytes == EncodeField(f)
    ensures Reports(f, config, Some(Piece(f.num, bytes)), f)
  {
  }

  /** A configured message: extracted, and re-encoded unless nothing is left of it. */
  method ReadMessage(content: Bytes, tag: Tag, subfields: Config, ghost turn: Turns, ghost f: Option<Field>)
    returns (piece: Option<Piece>, ghost g: Field)
    requires |content| < INT_LIMIT && Describes(turn) && Safe(turn, content, 0, subfields)
    requires f.Some? ==> f.value.SubMessage? && content == EncodeDoc(f.value.doc) && ValidDoc(f.value.doc)
    requires f.Some? ==> Fits(f.value.doc, subfields) && tag.value == TagOf(f.value) && tag.num == f.value.num
    ensures piece.Some? ==>
              && piece.value.num == tag.num && content != []
              && |piece.value.bytes| <= |Put(tag.value)| + |Put(|content|)| + |content|
    ensures f.Some? ==> ReportsMessage(f.value, subfields, piece, g)
    decreases |content|, 4
  {
    ghost var doc := if f.Some? then Some(f.value.doc) else None;
    var sub, inner := ExtractWith(content, subfields, turn, doc);
    g := SubMessage(tag.num, Doc(inner, End));
    if |sub| == 0 {
      NothingMeansEmpty(inner);
      return None, g;
    }
    piece := Some(Piece(tag.num, Put(tag.value) + (Put(|sub|) + sub)));
    PutIsMonotone(|sub|, |content|);
    if f.Some? {
      MessageEncodes(g, tag.value, sub);
    }
  }

  lemma {:induction false} ReencodedIsShorter(tag: Decoded, v: Decoded, length: nat)
    requires tag.n > 0 && Shortest(tag) && Shortest(v) && v.n > 0 && length <= |Put(tag.value)| + |Put(v.value)| + v.value
    ensures length <= tag.n + v.n + v.value
  {
  }

  /** One field, its tag at i and its value after the tag: the piece to report, if any. */
  method ReadField(data: Bytes, i: nat, tag: Tag, v: Decoded, config: Config, ghost turn: Turns, ghost f: Option<Field>)
    returns (piece: Option<Piece>, ghost g: Field)
    requires i < |data| < INT_LIMIT && Describes(turn) && SafeReads(turn, data, i, config, tag, v)
    requires tag.n > 0 && KnownWire(tag.wire) && Shortest(Decoded(tag.value, tag.n)) && Shortest(v)
    requires f.Some? ==> ValidField(f.value) && FitsField(f.value, config) && FieldShows(data, i, f.value, tag, v)
    ensures piece.Some? ==> piece.value.num == tag.num && |piece.value.bytes| <= PositionAfter(i + tag.n, tag.wire, v) - i
    ensures f.Some? ==> Reports(f.value, config, piece, g)
    decreases |data|, 0
  {
    g := if f.Some? then f.value else VarintField(0, 0);
    var j, end := i + tag.n, PositionAfter(i + tag.n, tag.wire, v);
    var cfg := GetConfigForField(config, tag.num);
    if cfg.None? {
      return None, g;
    }
    if tag.wire == WIRE_BYTES && Recurses(cfg.value) {
      piece, g := ReadMessage(data[j + v.n..end], tag, cfg.value.subfields, turn, f);
      if piece.Some? {
        ReencodedIsShorter(Decoded(tag.value, tag.n), v, |piece.value.bytes|);
      }
      if f.Some? {
        MessageIsReported(f.value, config, piece, g);
      }
      return;
    }
    if f.Some? {
      PlainIsReported(f.value, config, data[i..end]);
    }
    return Some(Piece(tag.num, data[i..end])), g;
  }

  function Collect(fields: seq<Piece>, piece: Option<Piece>): seq<Piece> {
    if piece.Some? then fields + [piece.value] else fields
  }

  lemma {:induction false} CollectedLength(fields: seq<Piece>, piece: Option<Piece>)
    ensures TotalLength(Collect(fields, piece)) == TotalLength(fields) + if piece.Some? then |piece.value.bytes| else 0
  {
    if piece.Some? {
      assert Collect(fields, piece)[..|fields|] == fields;
    }
  }

  lemma {:induction false} OneMoreEncodes(ps: seq<Piece>, trees: seq<Field>, p: Piece, f: Field)
    requires Encodes(ps, trees) && p == Piece(f.num, EncodeField(f))
    ensures Encodes(ps + [p], trees + [f])
  {
  }

  /** The place after a field that ends at `end`. */
  lemma {:induction false} NextPlace(data: Bytes, i: nat, end: nat, fields: seq<Piece>, config: Config, p: Place,
        piece: Option<Piece>, g: Field)
    returns (p': Place)
    requires PlaceOk(p, data, i, config, fields)
    requires p.Known? ==>
               && p.k < |p.doc.fields| && Reports(p.doc.fields[p.k], config, piece, g)
               && end == i + |EncodeField(p.doc.fields[p.k])|
    ensures p.Known? ==> p'.Known? && p'.doc == p.doc
    ensures PlaceOk(p', data, end, config, Collect(fields, piece))
  {
    p' := p;
    if p.Known? {
      FieldComesNext(data, i, p.doc, p.k);
      if piece.None? {
        Dropped(data, i, p.doc, p.k, config, p.kept);
        p' := Known(p.doc, p.k + 1, p.kept);
      } else {
        Reported(data, i, p.doc, p.k, config, p.kept, g);
        OneMoreEncodes(fields, p.kept, piece.value, g);
        p' := Known(p.doc, p.k + 1, p.kept + [g]);
      }
    }
  }

  /** A field of a known wire type: collected or skipped. */
  method ReadKnown(data: Bytes, i: nat, tag: Tag, v: Decoded, fields: seq<Piece>, config: Config,
        ghost turn: Turns, ghost place: Place)
    returns (more: seq<Piece>, ghost place': Place)
    requires i < |data| < INT_LIMIT && Describes(turn) && SafeReads(turn, data, i, config, tag, v)
    requires TotalLength(fields) <= i
    requires tag.n > 0 && KnownWire(tag.wire) && Shortest(Decoded(tag.value, tag.n)) && Shortest(v)
    requires PlaceOk(place, data, i, config, fields)
    requires place.Known? ==> place.k < |place.doc.fields| && FieldShows(data, i, place.doc.fields[place.k], tag, v)
    ensures var end := PositionAfter(i + tag.n, tag.wire, v);
            TotalLength(more) <= end && PlaceOk(place', data, end, config, more)
    ensures place.Known? ==> place'.Known? && place'.doc == place.doc
    decreases |data|, 1
  {
    ghost var f := None;
    if place.Known? {
      f := Some(place.doc.fields[place.k]);
      assert f.value in place.doc.fields;
    }
    var piece, g := ReadField(data, i, tag, v, config, turn, f);
    more := Collect(fields, piece);
    CollectedLength(fields, piece);
    place' := NextPlace(data, i, PositionAfter(i + tag.n, tag.wire, v), fields, config, place, piece, g);
  }

  datatype Verdict = Continue | Stop | Nil

  /** One turn of the loop. */
  method ReadNext(data: Bytes, i: nat, fields: seq<Piece>, config: Config, ghost turn: Turns, ghost place: Place)
    returns (verdict: Verdict, next: nat, more: seq<Piece>, ghost place': Place)
    requires i < |data| < INT_LIMIT && Describes(turn) && Safe(turn, data, i, config) && TotalLength(fields) <= i
    requires PlaceOk(place, data, i, config, fields)
    ensures place.Known? && verdict.Stop? ==> place.k == |place.doc.fields| && !place.doc.tail.BadWire?
    ensures place.Known? && verdict.Nil? ==> place.doc.tail.BadWire?
    ensures verdict.Continue? ==> i < next <= |data| && Safe(turn, data, next, config) && TotalLength(more) <= next
    ensures verdict.Continue? ==> PlaceOk(place', data, next, config, more)
    ensures verdict.Continue? && place.Known? ==> place'.Known? && place'.doc == place.doc
    decreases |data|, 2
  {
    var tag, v := Peek(data, i, config, turn, place);
    if tag.n <= 0 {
      return Stop, i, fields, place;
    }
    if !KnownWire(tag.wire) {
      return Nil, i, fields, place;
    }
    more, place' := ReadKnown(data, i, tag, v, fields, config, turn, place);
    verdict, next := Continue, PositionAfter(i + tag.n, tag.wire, v);
  }

  /** The extraction; `turn` keeps the definition of a turn out of its proof. */
  method ExtractWith(data: Bytes, config: Config, ghost turn: Turns, ghost doc: Option<Doc>)
    returns (out: Bytes, ghost order: seq<Field>)
    requires |data| < INT_LIMIT && Describes(turn) && Safe(turn, data, 0, config)
    requires doc.Some? ==> ValidDoc(doc.value) && Fits(doc.value, config) && data == EncodeDoc(doc.value)
    ensures |out| <= |data|
    ensures doc.Some? ==> Extracts(doc.value, config, order) && out == EncodeFields(order)
    decreases |data|, 3
  {
    var fields: seq<Piece> := [];
    var i := 0;
    ghost var place := if doc.Some? then Known(doc.value, 0, []) else Unknown;
    if doc.Some? {
      assert doc.value.fields[0..] == doc.value.fields && data[0..] == data;
    }
    while i < |data|
      invariant i <= |data| && Safe(turn, data, i, config) && TotalLength(fields) <= i
      invariant PlaceOk(place, data, i, config, fields)
      invariant doc.Some? ==> place.Known? && place.doc == doc.value
      decreases |data| - i
    {
      var verdict, next, more, place' := ReadNext(data, i, fields, config, turn, place);
      if verdict.Nil? {
        return [], [];
      }
      if verdict.Stop? {
        break;
      }
      i, fields, place := next, more, place';
    }
    ghost var kept := [];
    if doc.Some? {
      kept := place.kept;
      AllRead(data, i, place.doc, place.k, config, kept);
    }
    var sorted := SortByNumber(fields);
    SameTotal(fields, sorted);
    order := [];
    if doc.Some? {
      order := SameTrees(fields, kept, sorted);
      SortedTrees(sorted, order);
    }
    out := Concatenate(sorted, order);
  }

  /**
   On all bytes that fit the configuration: stays in bounds, terminates, and returns no more bytes than it was given.
   Canonical encodings fit, and there it returns the encoding of an extraction of the tree.
   */
  method Extract(data: Bytes, config: Config, ghost doc: Option<Doc>) returns (out: Bytes, ghost order: seq<Field>)
    requires |data| < INT_LIMIT && (doc.None? ==> Fitting(data, 0, config))
    requires doc.Some? ==> ValidDoc(doc.value) && Fits(doc.value, config) && data == EncodeDoc(doc.value)
    ensures |out| <= |data|
    ensures doc.Some? ==> Extracts(doc.value, config, order) && out == EncodeFields(order)
  {
    if doc.Some? {
      CanonicalIsFitting(data, doc.value, config);
    }
    FittingIsSafe(data, 0, config);
    out, order := ExtractWith(data, config, TurnAt, doc);
  }
}
