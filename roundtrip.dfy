/** Decoding inverts encoding for every value that fits its schema, in every reading mode the
    schema can use; and the reading modes' behaviour on input that was not produced by `bytes`. */
module RoundTrip {
  import opened Wire
  import opened Ints
  import opened Strings
  import opened Schema
  import opened Codec

  lemma StartsWithAppend(data: seq<byte>, a: seq<byte>, b: seq<byte>)
    requires StartsWith(data, a + b)
    ensures StartsWith(data, a) && StartsWith(data[|a|..], b)
  {
    assert data[..|a|] == (a + b)[..|a|];
    assert data[|a|..][..|b|] == data[..|a| + |b|][|a|..];
  }

  lemma ConsAppend<T>(done: seq<T>, todo: seq<T>)
    requires todo != []
    ensures done + [todo[0]] + todo[1..] == done + todo
  {
    assert todo == [todo[0]] + todo[1..];
  }

  /** Decoding `t` from any input that starts with the encoding of a fitting value `v` gives `v`
      back and consumes exactly the encoding; whatever follows is left alone. */
  lemma {:induction false} DecodeEncode(t: Ty, v: Value, data: seq<byte>)
    requires Fits(t, v) && StartsWith(data, Encode(v))
    ensures Decode(t, data) == Ok((v, |Encode(v)|))
    decreases t, 3
  {
    match t
    case IntTy(f) =>
      assert data == Encode(v) + data[|Encode(v)|..];
      IntRoundTrip(f, v.num, data[|Encode(v)|..]);
    case StrTy =>
      assert data == Encode(v) + data[|Encode(v)|..];
      StringRoundTrip(v.str.value, data[|Encode(v)|..]);
    case ArrTy(reader) =>
      ArrayDecodeEncode(t, v, data);
    case RecTy(_, _) =>
      RecordDecodeEncode(t, v, data);
  }

  /** `DecodeEncode` for an array: the count prefix, then the items in turn. */
  lemma ArrayDecodeEncode(t: Ty, v: Value, data: seq<byte>)
    requires t.ArrTy? && Fits(t, v) && StartsWith(data, Encode(v))
    ensures ReadArray(t.reader, data) == Ok((v, |Encode(v)|))
    decreases t, 2
  {
    var items := v.items;
    StartsWithAppend(data, PackInt(Int32, |items|), EncodeAll(items));
    assert data == PackInt(Int32, |items|) + data[4..];
    IntRoundTrip(Int32, |items|, data[4..]);
    ItemsReadInTurn(t.reader.elem, data, 4, items, 0);
    CountedReads(t.reader.elem, |items|, data, [], items, 4, 4 + |EncodeAll(items)|);
    assert [] + items == items;
  }

  /** `DecodeEncode` for a record: its fields in turn. */
  lemma RecordDecodeEncode(t: Ty, v: Value, data: seq<byte>)
    requires t.RecTy? && Fits(t, v) && StartsWith(data, Encode(v))
    ensures DecodeFields(t, data, [], 0) == Ok((v, |Encode(v)|))
    decreases t, 2
  {
    assert t.fields[0..] == t.fields;
    FieldsEncodingsReadInTurn(t, data, 0, [], v.fields);
    FieldsReads(t, data, 0, [], v.fields, |EncodeAll(v.fields)|);
    assert [] + v.fields == v.fields;
  }

  /** `vs` are what the reader of `elem` yields one after another from `offset` on, each taking
      at least `least` bytes, and the last of them ends at `end`. */
  predicate ReadsInTurn(elem: Ty, data: seq<byte>, offset: nat, vs: seq<Value>, end: nat, least: nat)
    ensures ReadsInTurn(elem, data, offset, vs, end, least) ==> offset <= end <= |data|
    decreases |vs|
  {
    offset <= |data| &&
    if vs == [] then end == offset
    else
      var r := Decode(elem, data[offset..]);
      r.Ok? && r.value.0 == vs[0] && r.value.1 >= least
      && ReadsInTurn(elem, data, offset + r.value.1, vs[1..], end, least)
  }

  // ItemsInTurn, DecodesTo, CountedYields, ExhaustYields, FieldsInOrder and FieldReadsTo below
  // name ReadsInTurn, Decode, ReadCounted, ReadExhaust, FieldsReadInTurn and ReadField again.
  // They are not new concepts: being non-recursive, they stop the verifier from unfolding the
  // recursive definitions when a lemma hands one of these facts on to the next.

  /** `ReadsInTurn`, as the loop lemmas below hand it on from one item to the next. */
  predicate ItemsInTurn(elem: Ty, data: seq<byte>, offset: nat, vs: seq<Value>, end: nat, least: nat) {
    ReadsInTurn(elem, data, offset, vs, end, least)
  }

  /** `elem`'s reader reads `v` from `data`, consuming `k` bytes. */
  predicate DecodesTo(elem: Ty, data: seq<byte>, v: Value, k: nat) {
    Decode(elem, data) == Ok((v, k))
  }

  /** The counted loop, having read `done` and standing at `offset`, ends with `items` at `end`. */
  predicate CountedYields(elem: Ty, n: int, data: seq<byte>, done: seq<Value>, offset: nat, items: seq<Value>, end: nat) {
    offset <= |data| && ReadCounted(elem, n, data, done, offset) == Ok((items, end))
  }

  /** The exhaust loop, having read `done` and standing at `offset`, ends with `items` at `end`. */
  predicate ExhaustYields(elem: Ty, data: seq<byte>, done: seq<Value>, offset: nat, items: seq<Value>, end: nat) {
    offset <= |data| && ReadExhaust(elem, data, done, offset) == Ok((items, end))
  }

  /** Reading one item in turn, then the rest. */
  lemma InTurnCons(elem: Ty, data: seq<byte>, offset: nat, vs: seq<Value>, tailEnd: nat, end: nat, least: nat, k: nat)
    requires offset <= |data| && vs != [] && DecodesTo(elem, data[offset..], vs[0], k) && k >= least
    requires ItemsInTurn(elem, data, offset + k, vs[1..], tailEnd, least) && tailEnd == end
    ensures ItemsInTurn(elem, data, offset, vs, end, least)
  {
  }

  /** Items read in turn start with one item of `k >= least` bytes, the rest following it. */
  lemma InTurnUncons(elem: Ty, data: seq<byte>, offset: nat, vs: seq<Value>, end: nat, least: nat)
    returns (k: nat)
    requires vs != [] && ItemsInTurn(elem, data, offset, vs, end, least)
    ensures offset + k <= |data| && DecodesTo(elem, data[offset..], vs[0], k) && k >= least
    ensures ItemsInTurn(elem, data, offset + k, vs[1..], end, least)
  {
    k := Decode(elem, data[offset..]).value.1;
  }

  /** After the first of the fitting `todo`, the rest stand as they did before. */
  lemma ItemTail(elem: Ty, data: seq<byte>, offset: nat, todo: seq<Value>, least: nat)
    requires offset <= |data| && todo != [] && AllFit(elem, todo) && StartsWith(data[offset..], EncodeAll(todo))
    requires least == 0 || (least == 1 && AllNonEmpty(todo))
    ensures offset + |Encode(todo[0])| + |EncodeAll(todo[1..])| == offset + |EncodeAll(todo)|
    ensures offset + |Encode(todo[0])| <= |data|
    ensures AllFit(elem, todo[1..]) && (least == 1 ==> AllNonEmpty(todo[1..]))
    ensures StartsWith(data[offset + |Encode(todo[0])|..], EncodeAll(todo[1..]))
  {
    var v, k := todo[0], |Encode(todo[0])|;
    StartsWithAppend(data[offset..], Encode(v), EncodeAll(todo[1..]));
    assert data[offset..][k..] == data[offset + k..];
  }

  /** The first of the fitting `todo` is read back from its encoding; with the rest read in
      turn after it, all of `todo` is. */
  lemma ItemHead(elem: Ty, data: seq<byte>, offset: nat, todo: seq<Value>, least: nat)
    requires offset <= |data| && todo != [] && AllFit(elem, todo) && StartsWith(data[offset..], EncodeAll(todo))
    requires least == 0 || (least == 1 && AllNonEmpty(todo))
    requires offset + |Encode(todo[0])| <= |data|
    requires ItemsInTurn(elem, data, offset + |Encode(todo[0])|, todo[1..], offset + |Encode(todo[0])| + |EncodeAll(todo[1..])|, least)
    ensures ItemsInTurn(elem, data, offset, todo, offset + |EncodeAll(todo)|, least)
    decreases elem, 4
  {
    var v, k := todo[0], |Encode(todo[0])|;
    StartsWithAppend(data[offset..], Encode(v), EncodeAll(todo[1..]));
    DecodeEncode(elem, v, data[offset..]);
    InTurnCons(elem, data, offset, todo, offset + k + |EncodeAll(todo[1..])|, offset + |EncodeAll(todo)|, least, k);
  }

  /** Fitting items are read back, in turn, from their encodings. */
  lemma {:induction false} ItemsReadInTurn(elem: Ty, data: seq<byte>, offset: nat, todo: seq<Value>, least: nat)
    requires offset <= |data| && AllFit(elem, todo) && StartsWith(data[offset..], EncodeAll(todo))
    requires least == 0 || (least == 1 && AllNonEmpty(todo))
    ensures ItemsInTurn(elem, data, offset, todo, offset + |EncodeAll(todo)|, least)
    decreases elem, 5, |todo|
  {
    if todo != [] {
      ItemTail(elem, data, offset, todo, least);
      ItemsReadInTurn(elem, data, offset + |Encode(todo[0])|, todo[1..], least);
      ItemHead(elem, data, offset, todo, least);
    }
  }

  /** One more item read by the counted loop short of its count. */
  lemma CountedStepForward(elem: Ty, n: int, data: seq<byte>, done: seq<Value>, offset: nat, v: Value, k: nat, items: seq<Value>, end: nat)
    requires offset + k <= |data| && |done| < n && DecodesTo(elem, data[offset..], v, k)
    requires CountedYields(elem, n, data, done + [v], offset + k, items, end)
    ensures CountedYields(elem, n, data, done, offset, items, end)
  {
  }

  /** The counted loop, having read `done`, reads the items that follow in turn and stops after
      `n == |done| + |todo|` of them. */
  lemma {:induction false} CountedReads(elem: Ty, n: int, data: seq<byte>, done: seq<Value>, todo: seq<Value>, offset: nat, end: nat)
    requires n == |done| + |todo| && ItemsInTurn(elem, data, offset, todo, end, 0)
    ensures CountedYields(elem, n, data, done, offset, done + todo, end)
    decreases |todo|
  {
    if todo == [] {
      assert done + todo == done;
    } else {
      var k := InTurnUncons(elem, data, offset, todo, end, 0);
      CountedReads(elem, n, data, done + [todo[0]], todo[1..], offset + k, end);
      ConsAppend(done, todo);
      CountedStepForward(elem, n, data, done, offset, todo[0], k, done + todo, end);
    }
  }

  /** One more item, of at least one byte, read by the exhaust loop. */
  lemma ExhaustStepForward(elem: Ty, data: seq<byte>, done: seq<Value>, offset: nat, v: Value, k: nat, items: seq<Value>, end: nat)
    requires offset + k <= |data| && k > 0 && DecodesTo(elem, data[offset..], v, k)
    requires ExhaustYields(elem, data, done + [v], offset + k, items, end)
    ensures ExhaustYields(elem, data, done, offset, items, end)
  {
  }

  /** The exhaust loop, having read `done`, reads the items that follow in turn, each taking at
      least one byte, up to the end of the input. */
  lemma {:induction false} ExhaustReads(elem: Ty, data: seq<byte>, done: seq<Value>, todo: seq<Value>, offset: nat)
    requires ItemsInTurn(elem, data, offset, todo, |data|, 1)
    ensures ExhaustYields(elem, data, done, offset, done + todo, |data|)
    decreases |todo|
  {
    if todo == [] {
      assert done + todo == done;
    } else {
      var k := InTurnUncons(elem, data, offset, todo, |data|, 1);
      ExhaustReads(elem, data, done + [todo[0]], todo[1..], offset + k);
      ConsAppend(done, todo);
      ExhaustStepForward(elem, data, done, offset, todo[0], k, done + todo, |data|);
    }
  }

  /** The record loop, having read the fields `done`, yields `todo` for the fields that follow,
      ending at `end`. */
  predicate FieldsReadInTurn(t: Ty, data: seq<byte>, offset: nat, done: seq<Value>, todo: seq<Value>, end: nat)
    requires t.RecTy?
    ensures FieldsReadInTurn(t, data, offset, done, todo, end) ==> end <= |data| && |done| + |todo| <= |t.fields|
    decreases |todo|
  {
    offset <= |data| && |done| + |todo| <= |t.fields| &&
    if todo == [] then end == offset
    else
      var r := ReadField(t.fields[|done|], done, data[offset..]);
      r.Ok? && r.value.0 == todo[0]
      && FieldsReadInTurn(t, data, offset + r.value.1, done + [todo[0]], todo[1..], end)
  }

  /** `FieldsReadInTurn`, as the record lemmas below hand it on from one field to the next. */
  predicate FieldsInOrder(t: Ty, data: seq<byte>, offset: nat, done: seq<Value>, todo: seq<Value>, end: nat)
    requires t.RecTy?
  {
    FieldsReadInTurn(t, data, offset, done, todo, end)
  }

  /** Field `f`, read after the items `items`, reads `v` from `data`, consuming `k` bytes. */
  predicate FieldReadsTo(f: Field, items: seq<Value>, data: seq<byte>, v: Value, k: nat) {
    ReadField(f, items, data) == Ok((v, k))
  }

  /** A field with its declared reader reads what the reader of its type reads. */
  lemma DeclaredReads(f: Field, items: seq<Value>, data: seq<byte>, v: Value, k: nat)
    requires f.reader == Declared && DecodesTo(f.ty, data, v, k)
    ensures FieldReadsTo(f, items, data, v, k)
  {
  }

  /** Reading one field in turn, then the rest. */
  lemma FieldsInTurnCons(t: Ty, data: seq<byte>, offset: nat, done: seq<Value>, todo: seq<Value>, tailEnd: nat, end: nat, k: nat)
    requires t.RecTy? && offset <= |data| && todo != [] && |done| + |todo| <= |t.fields|
    requires FieldReadsTo(t.fields[|done|], done, data[offset..], todo[0], k)
    requires FieldsInOrder(t, data, offset + k, done + [todo[0]], todo[1..], tailEnd) && tailEnd == end
    ensures FieldsInOrder(t, data, offset, done, todo, end)
  {
  }

  /** From `offset` on, `data` starts with the encodings of `todo`, which fit the declared
      readers of the fields after `done`. */
  predicate FieldsEncodedAt(t: Ty, data: seq<byte>, offset: nat, done: seq<Value>, todo: seq<Value>)
    requires t.RecTy?
  {
    |done| + |todo| <= |t.fields| && offset <= |data|
    && FieldsFit(t.fields[|done|..], todo) && StartsWith(data[offset..], EncodeAll(todo))
  }

  /** The field after `done` reads back the first of `todo` from its encoding, of `k` bytes,
      and the rest stand after it as they did before. */
  lemma FieldStep(t: Ty, data: seq<byte>, offset: nat, done: seq<Value>, todo: seq<Value>) returns (k: nat)
    requires t.RecTy? && todo != [] && FieldsEncodedAt(t, data, offset, done, todo)
    ensures |done| < |t.fields| && FieldReadsTo(t.fields[|done|], done, data[offset..], todo[0], k)
    ensures FieldsEncodedAt(t, data, offset + k, done + [todo[0]], todo[1..])
    ensures offset + k + |EncodeAll(todo[1..])| == offset + |EncodeAll(todo)|
    decreases t, 0
  {
    var i := |done|;
    var e := Encode(todo[0]);
    k := |e|;
    assert t.fields[i..][0] == t.fields[i];
    StartsWithAppend(data[offset..], e, EncodeAll(todo[1..]));
    DecodeEncode(t.fields[i].ty, todo[0], data[offset..]);
    DeclaredReads(t.fields[i], done, data[offset..], todo[0], k);
    assert data[offset..][k..] == data[offset + k..];
    forall j | 0 <= j < |todo| - 1
      ensures t.fields[i + 1..][j].reader == Declared && Fits(t.fields[i + 1..][j].ty, todo[1..][j])
    {
      assert t.fields[i + 1..][j] == t.fields[i..][j + 1];
    }
  }

  /** Fields whose values fit their declared readers are read back, in turn, from their
      encodings.  `done + todo` may cover only a prefix of the fields. */
  lemma {:induction false} FieldsEncodingsReadInTurn(t: Ty, data: seq<byte>, offset: nat, done: seq<Value>, todo: seq<Value>)
    requires t.RecTy? && FieldsEncodedAt(t, data, offset, done, todo)
    ensures FieldsInOrder(t, data, offset, done, todo, offset + |EncodeAll(todo)|)
    decreases t, 1, |todo|
  {
    if todo != [] {
      var k := FieldStep(t, data, offset, done, todo);
      FieldsEncodingsReadInTurn(t, data, offset + k, done + [todo[0]], todo[1..]);
      FieldsInTurnCons(t, data, offset, done, todo, offset + k + |EncodeAll(todo[1..])|, offset + |EncodeAll(todo)|, k);
    }
  }

  /** The record loop, having read `done`, reads the fields that follow in turn. */
  lemma {:induction false} FieldsReads(t: Ty, data: seq<byte>, offset: nat, done: seq<Value>, todo: seq<Value>, end: nat)
    requires t.RecTy? && FieldsInOrder(t, data, offset, done, todo, end)
    ensures DecodeFields(t, data, done, offset) == DecodeFields(t, data, done + todo, end)
    decreases |todo|
  {
    if todo == [] {
      assert done + todo == done;
    } else {
      var p := ReadField(t.fields[|done|], done, data[offset..]).value;
      FieldsReads(t, data, offset + p.1, done + [todo[0]], todo[1..], end);
      ConsAppend(done, todo);
    }
  }

  /** The codec's round trip, as the record tests assert it: `from_bytes(bytes(x)) == (x, len(bytes(x)))`. */
  lemma RoundTrip(t: Ty, v: Value, rest: seq<byte>)
    requires Fits(t, v)
    ensures Decode(t, Encode(v) + rest) == Ok((v, |Encode(v)|))
  {
    assert (Encode(v) + rest)[..|Encode(v)|] == Encode(v);
    DecodeEncode(t, v, Encode(v) + rest);
  }

  /** Every one of `vs` encodes to at least one byte. */
  predicate AllNonEmpty(vs: seq<Value>)
    requires forall i | 0 <= i < |vs| :: Encodable(vs[i])
  {
    forall i {:trigger Encode(vs[i])} | 0 <= i < |vs| :: |Encode(vs[i])| > 0
  }

  /** Exhaust mode (no prefix, `length == 0`) reads back items written without a count, and
      consumes the whole input. */
  lemma ExhaustRoundTrip(elem: Ty, items: seq<Value>)
    requires AllFit(elem, items) && AllNonEmpty(items)
    ensures ReadArray(ArrayReader(elem, false, 0), EncodeAll(items)) == Ok((ArrV(items), |EncodeAll(items)|))
  {
    var data := EncodeAll(items);
    assert StartsWith(data[0..], data);
    ItemsReadInTurn(elem, data, 0, items, 1);
    ExhaustReads(elem, data, [], items, 0);
    assert [] + items == items;
  }

  /** A reader with no prefix and a non-zero `length` reads exactly `length` items written
      without a count, and leaves what follows them alone. */
  lemma CountedRoundTrip(elem: Ty, items: seq<Value>, rest: seq<byte>)
    requires |items| > 0 && AllFit(elem, items)
    ensures ReadArray(ArrayReader(elem, false, |items|), EncodeAll(items) + rest)
         == Ok((ArrV(items), |EncodeAll(items)|))
  {
    var data := EncodeAll(items) + rest;
    assert data[0..][..|EncodeAll(items)|] == EncodeAll(items);
    ItemsReadInTurn(elem, data, 0, items, 0);
    CountedReads(elem, |items|, data, [], items, 0, |EncodeAll(items)|);
    assert [] + items == items;
  }

  /** A negative count prefix reads no items and consumes just the 4-byte prefix. */
  lemma NegativeCountPrefix(elem: Ty, length: int, data: seq<byte>)
    requires |data| >= 4 && UnpackInt(Int32, data[..4]) < 0
    ensures ReadArray(ArrayReader(elem, true, length), data) == Ok((ArrV([]), 4))
  {
  }

  /** An empty array is `00 00 00 00` and reads back as an empty array after those 4 bytes. */
  lemma EmptyArray(elem: Ty, rest: seq<byte>)
    ensures Encode(ArrV([])) == [0, 0, 0, 0]
    ensures ReadArray(ArrayReader(elem, true, 0), Encode(ArrV([])) + rest) == Ok((ArrV([]), 4))
  {
    assert ToBigEndian(0, 1) == [0];
    assert ToBigEndian(0, 2) == [0, 0];
    assert ToBigEndian(0, 3) == [0, 0, 0];
    assert PackInt(Int32, 0) == [0, 0, 0, 0];
    IntRoundTrip(Int32, 0, rest);
  }

  /** A null string is written as `FF FF` but read back as the empty string: it does not round-trip. */
  lemma NullStringReadsEmpty(rest: seq<byte>)
    ensures Encode(StrV(None)) == [0xFF, 0xFF]
    ensures Decode(StrTy, Encode(StrV(None)) + rest) == Ok((StrV(Some([])), 2))
  {
    NullDecodesAsEmpty(rest);
  }
}
