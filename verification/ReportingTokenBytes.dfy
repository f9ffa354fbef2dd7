/**
 The extractor's turns on arbitrary bytes (reportingtoken.go): the varints after a tag are not checked, so a position can
 leave the message or move back, and a configured slice can be out of range. Exactly when neither happens at any level,
 and inputs on which they do.
 */
module ReportingTokenBytes {
  import opened Prelude
  import opened Varint
  import opened WireTree
  import opened ReportingToken
  import opened ReportingTokenReading
  import opened ReportingTokenWalk

  /** int addition wraps around at 64 bits; a sum of two ints and a small number wraps at most once. */
  function Int64(x: int): int {
    if x < -INT_LIMIT then x + UINT64_LIMIT else if x < INT_LIMIT then x else x - UINT64_LIMIT
  }

  lemma {:induction false} Int64Wraps(x: int)
    requires -UINT64_LIMIT - INT_LIMIT <= x < UINT64_LIMIT + INT_LIMIT
    ensures Int64(x) == (x + INT_LIMIT) % UINT64_LIMIT - INT_LIMIT
  {
  }

  // ---------- what a varint read can return ----------

  lemma {:induction false} ReadBounds(s: Bytes, i: nat)
    requires i < MAX_VARINT_LEN
    ensures var r := ReadFrom(s, i); -(MAX_VARINT_LEN + 1) <= r.n <= i + |s| && r.n <= MAX_VARINT_LEN
    ensures var r := ReadFrom(s, i); r.value < Room(i) && (r.n <= 0 ==> r.value == 0)
    decreases MAX_VARINT_LEN - i
  {
    RoomIsPositive(i);
    if s != [] && s[0] >= 128 && i + 1 < MAX_VARINT_LEN {
      ReadBounds(s[1..], i + 1);
    }
  }

  lemma {:induction false} RoomIsPositive(i: nat)
    requires i < MAX_VARINT_LEN
    ensures Room(i) >= if i == MAX_VARINT_LEN - 1 then 2 else 256
    decreases MAX_VARINT_LEN - i
  {
    if i < MAX_VARINT_LEN - 1 {
      RoomIsPositive(i + 1);
    }
  }

  /** What a varint read over `size` bytes can return. */
  predicate Readable(r: Decoded, size: nat) {
    -(MAX_VARINT_LEN + 1) <= r.n <= size && r.n <= MAX_VARINT_LEN && r.value < UINT64_LIMIT && (r.n <= 0 ==> r.value == 0)
  }

  lemma {:induction false} UvarintBounds(s: Bytes)
    ensures Readable(Uvarint(s), |s|)
  {
    RoomIsUint64();
    ReadBounds(s, 0);
  }

  // ---------- one value ----------

  /** Where the position stands after a value that starts at j, v being the varint read there. */
  function PositionAfter(j: nat, w: nat, v: Decoded): int {
    Int64(if w == WIRE_VARINT then j + v.n
          else if w == WIRE_64BIT then j + 8
          else if w == WIRE_32BIT then j + 4
          else j + v.n + AsInt(v.value))
  }

  /** What has to hold for the value to end inside a message of the given size. */
  predicate ValueFits(size: nat, j: nat, w: nat, v: Decoded) {
    if w == WIRE_VARINT then v.n >= 0
    else if w == WIRE_64BIT then j + 8 <= size
    else if w == WIRE_32BIT then j + 4 <= size
    else v.n >= 0 && (j + v.n + v.value <= size || v.value + v.n >= UINT64_LIMIT)
  }

  /** For whatever varint was read and each wire type: the position stays between the value's start and the end of the message. */
  lemma {:induction false} ValueFitsIff(size: nat, j: nat, w: nat, v: Decoded)
    requires j <= size < INT_LIMIT && KnownWire(w) && Readable(v, size - j)
    ensures j <= PositionAfter(j, w, v) <= size <==> ValueFits(size, j, w, v)
  {
  }

  /** What has to hold for the content of a configured message to be a slice of the data. */
  predicate SliceFits(size: nat, j: nat, v: Decoded) { v.n >= 0 && j + v.n + v.value <= size }

  /** A configured message is sliced out of the data exactly if its length was read and does not exceed what follows. */
  lemma {:induction false} MessageSliceFitsIff(size: nat, j: nat, v: Decoded)
    requires j <= size < INT_LIMIT && Readable(v, size - j)
    ensures j <= j + v.n <= PositionAfter(j, WIRE_BYTES, v) <= size <==> SliceFits(size, j, v)
  {
  }

  // ---------- one turn ----------

  /** The field is configured as a message to be extracted in turn. */
  predicate IsMessage(w: nat, cfg: Option<ReportingField>) { w == WIRE_BYTES && cfg.Some? && Recurses(cfg.value) }

  /**
   What the loop does at position i, given its tag, the varint after it and the configuration of the field: skip it,
   collect the slice that starts at its tag, or extract its content.
   */
  function TurnFrom(size: nat, i: nat, tag: Decoded, v: Decoded, cfg: Option<ReportingField>): Turn {
    if tag.n <= 0 then Break
    else if !KnownWire(tag.value % 8) then ReturnNil
    else
      var j, w := i + tag.n, tag.value % 8;
      var next := PositionAfter(j, w, v);
      if cfg.None? then Move(j, next)
      else if IsMessage(w, cfg) then
        if 0 <= j + v.n <= next <= size then Enter(j, j + v.n, next, cfg.value.subfields) else OutOfRange
      else if i <= next <= size then Move(j, next)
      else OutOfRange
  }

  /** The value fits, and so does the content of a configured message. */
  predicate TurnFits(size: nat, i: nat, tag: Decoded, v: Decoded, cfg: Option<ReportingField>) {
    tag.n > 0 && KnownWire(tag.value % 8) ==>
      var j, w := i + tag.n, tag.value % 8;
      ValueFits(size, j, w, v) && (IsMessage(w, cfg) ==> SliceFits(size, j, v))
  }

  /** The turn slices within the message and moves on within it, past its tag. */
  predicate TurnIsOrderly(size: nat, i: nat, t: Turn) {
    match t
    case Break => true
    case ReturnNil => true
    case OutOfRange => false
    case Move(from, next) => i < from <= next <= size
    case Enter(from, start, next, _) => i < from <= start <= next <= size
  }

  lemma {:induction false} TurnIsOrderlyIff(size: nat, i: nat, tag: Decoded, v: Decoded, cfg: Option<ReportingField>)
    requires i < size < INT_LIMIT && Readable(tag, size - i) && (tag.n > 0 ==> Readable(v, size - i - tag.n))
    ensures TurnIsOrderly(size, i, TurnFrom(size, i, tag, v, cfg)) <==> TurnFits(size, i, tag, v, cfg)
  {
    if tag.n > 0 && KnownWire(tag.value % 8) {
      ValueFitsIff(size, i + tag.n, tag.value % 8, v);
      MessageSliceFitsIff(size, i + tag.n, v);
    }
  }

  // ---------- the same, read from the data ----------

  /** How a varint is read. */
  type Reader = Bytes -> Decoded

  ghost predicate Reliable(read: Reader) { forall s :: Readable(read(s), |s|) }

  lemma {:induction false} UvarintIsReliable()
    ensures Reliable(Uvarint)
  {
    forall s ensures Readable(Uvarint(s), |s|) {
      UvarintBounds(s);
    }
  }

  /** The varint after a tag at i. */
  function ValueAfter(read: Reader, data: Bytes, i: nat, tag: Decoded): Decoded
    requires i <= |data|
  {
    if 0 < tag.n <= |data| - i then read(data[i + tag.n..]) else Decoded(0, 0)
  }

  function TurnWith(read: Reader, data: Bytes, i: nat, config: Config): Turn {
    if i >= |data| then Break
    else
      var tag := read(data[i..]);
      TurnFrom(|data|, i, tag, ValueAfter(read, data, i, tag), ConfigFor(config, tag.value / 8))
  }

  predicate FitsWith(read: Reader, data: Bytes, i: nat, config: Config)
    requires i < |data|
  {
    var tag := read(data[i..]);
    TurnFits(|data|, i, tag, ValueAfter(read, data, i, tag), ConfigFor(config, tag.value / 8))
  }

  /** The turn the extractor takes. */
  function TurnAt(data: Bytes, i: nat, config: Config): Turn { TurnWith(Uvarint, data, i, config) }

  predicate FitsAt(data: Bytes, i: nat, config: Config)
    requires i < |data|
  {
    FitsWith(Uvarint, data, i, config)
  }

  lemma {:induction false} OrderlyWithIff(read: Reader, data: Bytes, i: nat, config: Config)
    requires Reliable(read) && i < |data| < INT_LIMIT
    ensures TurnIsOrderly(|data|, i, TurnWith(read, data, i, config)) <==> FitsWith(read, data, i, config)
  {
    var tag := read(data[i..]);
    assert Readable(tag, |data[i..]|);
    if tag.n > 0 {
      assert Readable(read(data[i + tag.n..]), |data[i + tag.n..]|);
    }
    TurnIsOrderlyIff(|data|, i, tag, ValueAfter(read, data, i, tag), ConfigFor(config, tag.value / 8));
  }

  /** For arbitrary bytes and any configuration: a turn is orderly exactly if what it reads fits. */
  lemma {:induction false} OrderlyIff(data: Bytes, i: nat, config: Config)
    requires i < |data| < INT_LIMIT
    ensures Orderly(TurnAt, data, i, config) <==> FitsAt(data, i, config)
  {
    UvarintIsReliable();
    OrderlyWithIff(Uvarint, data, i, config);
  }

  /** This is the value end the extractor computes, before it wraps around. */
  lemma {:induction false} SameEnd(data: Bytes, j: nat, w: nat)
    requires j <= |data| && KnownWire(w)
    ensures PositionAfter(j, w, Uvarint(data[j..])) == Int64(ValueEnd(data, j, w).value)
  {
  }

  // ---------- the whole extraction ----------

  /** Every value met from i on fits, every configured message's content is a slice, and the content fits in the same way. */
  predicate Fitting(data: Bytes, i: nat, config: Config)
    requires i <= |data|
    decreases |data|, |data| - i
  {
    i == |data| ||
    (FitsAt(data, i, config) &&
     match TurnAt(data, i, config)
     case Move(_, next) => i < next <= |data| ==> Fitting(data, next, config)
     case Enter(_, start, next, sub) =>
       i < start <= next <= |data| ==> Fitting(data[start..next], 0, sub) && Fitting(data, next, config)
     case _ => true)
  }

  lemma {:induction false} FittingIsSafe(data: Bytes, i: nat, config: Config)
    requires i <= |data| < INT_LIMIT
    ensures Fitting(data, i, config) <==> Safe(TurnAt, data, i, config)
    decreases |data|, |data| - i
  {
    if i < |data| {
      OrderlyIff(data, i, config);
      if FitsAt(data, i, config) {
        match TurnAt(data, i, config)
        case Move(_, next) => FittingIsSafe(data, next, config);
        case Enter(_, start, next, sub) =>
          FittingIsSafe(data[start..next], 0, sub);
          FittingIsSafe(data, next, config);
        case _ =>
      }
    }
  }

  /**
   On arbitrary bytes and any configuration, the extraction stays in bounds at every level exactly if everything it
   reads fits; otherwise some turn at some level does not.
   */
  lemma {:induction false} InBoundsIff(data: Bytes, config: Config)
    requires |data| < INT_LIMIT
    ensures Fitting(data, 0, config) <==> forall n: nat :: !FailsAfter(TurnAt, data, config, n)
  {
    FittingIsSafe(data, 0, config);
    SafeIff(TurnAt, data, config);
  }

  /** And then it ends, after at most two steps per byte. */
  lemma {:induction false} FittingTerminates(data: Bytes, config: Config, n: nat)
    requires |data| < INT_LIMIT && Fitting(data, 0, config) && n > 2 * |data|
    ensures Walk(TurnAt, Begin(data, config), n) == Finished
  {
    FittingIsSafe(data, 0, config);
    SafeTerminates(TurnAt, data, config, n);
  }

  // ---------- canonical encodings fit, at every level ----------

  /** The field f comes next at i. */
  ghost predicate FieldAt(data: Bytes, i: nat, f: Field, rest: Bytes) {
    i < |data| < INT_LIMIT && ValidField(f) && data[i..] == EncodeField(f) + rest
  }

  /** The turn goes over the whole field, extracting its content if it is a configured message. */
  ghost predicate TurnsOver(turn: Turns, data: Bytes, i: nat, f: Field, config: Config) {
    var next := i + |EncodeField(f)|;
    next <= |data| &&
    match turn(data, i, config)
    case Move(from, n) => i < from <= next && n == next && !IsMessage(WireType(f), ConfigFor(config, f.num))
    case Enter(from, start, n, sub) =>
      && i < from <= start <= next && n == next
      && IsMessage(WireType(f), ConfigFor(config, f.num)) && sub == ConfigFor(config, f.num).value.subfields
      && (f.SubMessage? ==> data[start..next] == EncodeDoc(f.doc))
    case _ => false
  }

  /** The turns follow canonical encodings. */
  ghost predicate Follows(turn: Turns) {
    && (forall data, i, f, config, rest :: FieldAt(data, i, f, rest) ==> TurnsOver(turn, data, i, f, config))
    && (forall data, i, doc, config :: TailAt(data, i, doc) ==> Stops(turn, data, i, config))
  }

  ghost predicate TailAt(data: Bytes, i: nat, doc: Doc) {
    ValidTail(doc.tail) && i < |data| && data[i..] == After(doc, |doc.fields|)
  }

  ghost predicate Stops(turn: Turns, data: Bytes, i: nat, config: Config) {
    turn(data, i, config).Break? || turn(data, i, config).ReturnNil?
  }

  lemma {:induction false} CanonicalFits(turn: Turns, data: Bytes, i: nat, doc: Doc, k: nat, config: Config)
    requires Follows(turn)
    requires ValidDoc(doc) && Fits(doc, config) && i <= |data| < INT_LIMIT && k <= |doc.fields| && data[i..] == After(doc, k)
    ensures Safe(turn, data, i, config)
    decreases |data|, |data| - i
  {
    if i < |data| {
      if k == |doc.fields| {
        assert TailAt(data, i, doc);
        assert Stops(turn, data, i, config);
        SafeStop(turn, data, i, config);
      } else {
        var f, rest := doc.fields[k], After(doc, k + 1);
        assert f in doc.fields;
        FieldComesNext(data, i, doc, k);
        Slices(data, i, EncodeField(f), rest);
        CanonicalFits(turn, data, i + |EncodeField(f)|, doc, k + 1, config);
        assert FieldAt(data, i, f, rest);
        assert TurnsOver(turn, data, i, f, config);
        if IsMessage(WireType(f), ConfigFor(config, f.num)) {
          CanonicalContent(f, |data|);
          assert EncodeDoc(f.doc)[0..] == EncodeDoc(f.doc) && f.doc.fields[0..] == f.doc.fields;
          CanonicalFits(turn, EncodeDoc(f.doc), 0, f.doc, 0, ConfigFor(config, f.num).value.subfields);
        }
        SafeOver(turn, data, i, f, config);
      }
    }
  }

  lemma {:induction false} SafeOver(turn: Turns, data: Bytes, i: nat, f: Field, config: Config)
    requires i < |data| && TurnsOver(turn, data, i, f, config) && Safe(turn, data, i + |EncodeField(f)|, config)
    requires IsMessage(WireType(f), ConfigFor(config, f.num)) ==>
               f.SubMessage? && Safe(turn, EncodeDoc(f.doc), 0, ConfigFor(config, f.num).value.subfields)
    ensures Safe(turn, data, i, config)
  {
    match turn(data, i, config)
    case Move(from, next) => SafeMove(turn, data, i, config, from, next);
    case Enter(from, start, next, sub) => SafeEnter(turn, data, i, config, from, start, next, sub);
  }

  lemma {:induction false} CanonicalContent(f: Field, size: nat)
    requires f.SubMessage? && |EncodeField(f)| <= size
    ensures |EncodeDoc(f.doc)| < size
  {
    SplitField(f);
  }

  /** The tag of a canonical field and where its value begins. */
  lemma {:induction false} FieldTag(data: Bytes, i: nat, f: Field, rest: Bytes)
    requires FieldAt(data, i, f, rest)
    ensures var tag := Uvarint(data[i..]);
            && tag.value % 8 == WireType(f) && tag.value / 8 == f.num && 0 < tag.n <= |data| - i
            && data[i + tag.n..] == Body(f) + rest && |EncodeField(f)| == tag.n + |Body(f)|
  {
    TagIsRead(data, i, f, rest);
    TagSplits(f);
  }

  lemma {:induction false} FieldValue(data: Bytes, i: nat, j: nat, f: Field, rest: Bytes)
    requires i <= j <= |data| < INT_LIMIT && ValidField(f)
    requires data[j..] == Body(f) + rest && i + |EncodeField(f)| == j + |Body(f)|
    ensures KnownWire(WireType(f)) && PositionAfter(j, WireType(f), Uvarint(data[j..])) == i + |EncodeField(f)| <= |data|
  {
    ValueIsRead(data, j, f, rest);
    Slices(data, j, Body(f), rest);
    SameEnd(data, j, WireType(f));
  }

  lemma {:induction false} BytesStart(data: Bytes, j: nat, f: Field, rest: Bytes) returns (start: nat)
    requires j <= |data| && ValidField(f) && WireType(f) == WIRE_BYTES && data[j..] == Body(f) + rest
    ensures var next := j + |Body(f)|;
            && j <= start <= next <= |data| && Uvarint(data[j..]).n == start - j
            && (f.SubMessage? ==> data[start..next] == EncodeDoc(f.doc))
  {
    PayloadFits(f);
    start := PrefixedStart(data, j, Payload(f), Body(f), rest);
  }

  lemma {:induction false} PrefixedStart(data: Bytes, j: nat, p: Bytes, body: Bytes, rest: Bytes) returns (start: nat)
    requires j <= |data| && |p| < INT_LIMIT && body == Put(|p|) + p && data[j..] == body + rest
    ensures j <= start <= j + |body| <= |data| && Uvarint(data[j..]).n == start - j && data[start..j + |body|] == p
  {
    BytesAreRead(data, j, p, rest);
    start := j + |Put(|p|)|;
  }

  lemma {:induction false} MoveWith(read: Reader, data: Bytes, i: nat, config: Config, j: nat, w: nat, num: nat, next: nat)
    requires i < j <= next <= |data| && read(data[i..]).n == j - i && read(data[i..]).value % 8 == w && KnownWire(w)
    requires read(data[i..]).value / 8 == num && !IsMessage(w, ConfigFor(config, num))
    requires PositionAfter(j, w, read(data[j..])) == next
    ensures TurnWith(read, data, i, config) == Move(j, next)
  {
  }

  lemma {:induction false} EnterWith(read: Reader, data: Bytes, i: nat, config: Config, j: nat, num: nat, start: nat, next: nat)
    requires i < j <= start <= next <= |data| && read(data[i..]).n == j - i && read(data[i..]).value % 8 == WIRE_BYTES
    requires read(data[i..]).value / 8 == num && IsMessage(WIRE_BYTES, ConfigFor(config, num))
    requires PositionAfter(j, WIRE_BYTES, read(data[j..])) == next && read(data[j..]).n == start - j
    ensures TurnWith(read, data, i, config) == Enter(j, start, next, ConfigFor(config, num).value.subfields)
  {
  }

  lemma {:induction false} TurnOverField(data: Bytes, i: nat, f: Field, config: Config, rest: Bytes)
    requires FieldAt(data, i, f, rest)
    ensures TurnsOver(TurnAt, data, i, f, config)
  {
    FieldTag(data, i, f, rest);
    var j, next := i + Uvarint(data[i..]).n, i + |EncodeField(f)|;
    FieldValue(data, i, j, f, rest);
    if IsMessage(WireType(f), ConfigFor(config, f.num)) {
      var start := BytesStart(data, j, f, rest);
      EnterWith(Uvarint, data, i, config, j, f.num, start, next);
    } else {
      MoveWith(Uvarint, data, i, config, j, WireType(f), f.num, next);
    }
  }

  lemma {:induction false} TurnAtTail(data: Bytes, i: nat, doc: Doc, config: Config)
    requires TailAt(data, i, doc)
    ensures Stops(TurnAt, data, i, config)
  {
    assert doc.fields[|doc.fields|..] == [];
    assert data[i..] == EncodeTail(doc.tail);
    if doc.tail.BadWire? {
      UvarintPut(doc.tail.tag, doc.tail.rest);
    }
  }

  lemma {:induction false} TurnsFollow()
    ensures Follows(TurnAt)
  {
    forall data, i, f, config, rest | FieldAt(data, i, f, rest) ensures TurnsOver(TurnAt, data, i, f, config) {
      TurnOverField(data, i, f, config, rest);
    }
    forall data, i, doc, config | TailAt(data, i, doc) ensures Stops(TurnAt, data, i, config) {
      TurnAtTail(data, i, doc, config);
    }
  }

  /** Every canonical encoding of a tree that fits the configuration is extracted in bounds, at every level. */
  lemma {:induction false} CanonicalIsFitting(data: Bytes, doc: Doc, config: Config)
    requires ValidDoc(doc) && Fits(doc, config) && data == EncodeDoc(doc) && |data| < INT_LIMIT
    ensures Fitting(data, 0, config)
  {
    assert doc.fields[0..] == doc.fields && data[0..] == data;
    TurnsFollow();
    CanonicalFits(TurnAt, data, 0, doc, 0, config);
    FittingIsSafe(data, 0, config);
  }

  // ---------- a message without end ----------

  /** Five fields of number 2 with value 0, then one whose value is eleven continuation bytes. */
  const ENDLESS: Bytes := [16, 0, 16, 0, 16, 0, 16, 0, 16, 0, 16] + seq(11, _ => 128)

  lemma {:induction false} OverlongIsNegative(s: Bytes, i: nat)
    requires i <= MAX_VARINT_LEN && |s| > MAX_VARINT_LEN - i
    requires forall k :: 0 <= k <= MAX_VARINT_LEN - i ==> s[k] >= 128
    ensures ReadFrom(s, i).n == -(MAX_VARINT_LEN + 1)
    decreases MAX_VARINT_LEN - i
  {
    if i < MAX_VARINT_LEN {
      OverlongIsNegative(s[1..], i + 1);
    }
  }

  /** After an overlong varint value the position is eleven bytes before the value. */
  lemma {:induction false} OverlongValueMovesBack(data: Bytes, j: nat)
    requires j + MAX_VARINT_LEN < |data| < INT_LIMIT && forall k :: j <= k <= j + MAX_VARINT_LEN ==> data[k] >= 128
    ensures var v := Uvarint(data[j..]); PositionAfter(j, WIRE_VARINT, v) == j - 11 && !ValueFits(|data|, j, WIRE_VARINT, v)
  {
    OverlongIsNegative(data[j..], 0);
  }

  lemma {:induction false} EndlessTurn(r: nat, config: Config)
    requires r < 6 && ConfigFor(config, 2).None?
    ensures |ENDLESS| == 22 && TurnAt(ENDLESS, 2 * r, config) == Move(2 * r + 1, if r < 5 then 2 * r + 2 else 0)
  {
    var i := 2 * r;
    assert ENDLESS[i..][0] == 16;
    assert Uvarint(ENDLESS[i..]) == Decoded(16, 1);
    if r < 5 {
      assert ENDLESS[i + 1..][0] == 0;
      assert Uvarint(ENDLESS[i + 1..]) == Decoded(0, 1);
    } else {
      OverlongValueMovesBack(ENDLESS, 11);
    }
  }

  /**
   Wherever field 2 is not configured, as in the embedded list, the loop over it goes through positions 0, 2, 4, 6, 8,
   10 for ever, as the whole message or as the content of an enclosing one.
   */
  lemma {:induction false} NeverEnds(below: seq<Frame>, config: Config, n: nat)
    requires ConfigFor(config, 2).None?
    ensures Walk(TurnAt, On(below, ENDLESS, config, 0), n) == On(below, ENDLESS, config, 2 * (n % 6))
  {
    forall r: nat | r < 6
      ensures |ENDLESS| == 22 && TurnAt(ENDLESS, 2 * r, config) == Move(2 * r + 1, if r < 5 then 2 * r + 2 else 0)
    {
      EndlessTurn(r, config);
    }
    EndlessTurn(0, config);
    Cycles(TurnAt, below, ENDLESS, config, 0, n);
  }

  // ---------- a length that wraps around ----------

  /** Field 3 with the length 2^64 - 1, then eight bytes: the value ends inside the message, before its content begins. */
  const WRAPPED: Bytes := [26] + seq(9, _ => 255) + [1] + seq(8, _ => 0)

  lemma {:induction false} WrappedVarints()
    ensures |WRAPPED| == 19 && Uvarint(WRAPPED) == Decoded(26, 1) && Uvarint(WRAPPED[1..]) == Decoded(UINT64_LIMIT - 1, 10)
  {
    var length := WRAPPED[1..];
    assert length == Put(UINT64_LIMIT - 1) + seq(8, _ => 0) by {
      LongestVarint();
    }
    UvarintPut(UINT64_LIMIT - 1, seq(8, _ => 0));
    assert Put(UINT64_LIMIT - 1) == seq(9, _ => 255) + [1] by {
      LongestVarint();
    }
    assert WRAPPED[0..] == WRAPPED;
  }

  lemma {:induction false} LongestVarint()
    ensures Put(UINT64_LIMIT - 1) == seq(9, _ => 255) + [1]
  {
    PutOnes(9);
  }

  /** The number whose n low groups of seven bits, and one bit above, are all ones. */
  function Ones(n: nat): nat { if n == 0 then 1 else 128 * Ones(n - 1) + 127 }

  lemma {:induction false} PutOnes(n: nat)
    ensures Put(Ones(n)) == seq(n, _ => 255) + [1]
    ensures n == 9 ==> Ones(n) == UINT64_LIMIT - 1
  {
    if n > 0 {
      PutOnes(n - 1);
      assert Ones(n) / 128 == Ones(n - 1) && Ones(n) % 128 == 127 && Ones(n) >= 128;
      assert [255] + (seq(n - 1, _ => 255) + [1]) == seq(n, _ => 255) + [1];
    }
    if n == 9 {
      assert Ones(3) == 0x3f_ffff;
      assert Ones(6) == 0x7ff_ffff_ffff;
    }
  }

  /** Where field 3 is a configured message, its slice is out of range at once, although the value itself fits. */
  lemma {:induction false} WrappedLengthIsOutOfRange(config: Config)
    requires IsMessage(WIRE_BYTES, ConfigFor(config, 3))
    ensures ValueFits(|WRAPPED|, 1, WIRE_BYTES, Uvarint(WRAPPED[1..]))
    ensures TurnAt(WRAPPED, 0, config) == OutOfRange && Walk(TurnAt, Begin(WRAPPED, config), 1) == Left
  {
    WrappedVarints();
  }
}
