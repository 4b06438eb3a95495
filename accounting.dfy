/** The converse of the reading-in-turn lemmas: whenever a loop of the decoder succeeds, what it
    returns is its items read one after another, and what it consumed is the sum of what each
    of them consumed. */
module Accounting {
  import opened Wire
  import opened Ints
  import opened Schema
  import opened Codec
  import opened RoundTrip

  lemma PrefixSnoc<T>(s: seq<T>, a: seq<T>, x: T)
    requires |a| < |s| && s[..|a| + 1] == a + [x]
    ensures s[..|a|] == a && s[|a|] == x
  {
    assert s[..|a|] == s[..|a| + 1][..|a|];
  }

  lemma DropOne<T>(s: seq<T>, i: nat)
    requires i < |s|
    ensures s[i..] != [] && s[i..][0] == s[i] && s[i..][1..] == s[i + 1..]
  {
  }

  /** `InTurnCons` for the items of `items` after `done`, the first of them being `v`. */
  lemma InTurnConsAt(elem: Ty, data: seq<byte>, offset: nat, items: seq<Value>, done: seq<Value>, v: Value, end: nat, least: nat, k: nat)
    requires offset <= |data| && |done| < |items| && items[|done|] == v
    requires DecodesTo(elem, data[offset..], v, k) && k >= least
    requires ItemsInTurn(elem, data, offset + k, items[|done + [v]|..], end, least)
    ensures ItemsInTurn(elem, data, offset, items[|done|..], end, least)
  {
    var i := |done|;
    assert |done + [v]| == i + 1;
    DropOne(items, i);
    InTurnCons(elem, data, offset, items[i..], end, end, least, k);
  }

  /** A successful exhaust loop not at the end of the input read one item `v` of `k >= 1`
      bytes, and went on from after it. */
  lemma ExhaustStepBack(elem: Ty, data: seq<byte>, done: seq<Value>, offset: nat, items: seq<Value>, end: nat)
    returns (v: Value, k: nat)
    requires offset < |data| && ExhaustYields(elem, data, done, offset, items, end)
    ensures DecodesTo(elem, data[offset..], v, k) && k > 0 && offset + k <= |data|
    ensures ExhaustYields(elem, data, done + [v], offset + k, items, end)
  {
    var p := Decode(elem, data[offset..]).value;
    v, k := p.0, p.1;
  }

  /** An exhaust loop that succeeds returns `done` followed by items read in turn from `offset`
      to the end of the input, each taking at least one byte. */
  lemma {:induction false} ExhaustInTurn(elem: Ty, data: seq<byte>, done: seq<Value>, offset: nat, items: seq<Value>, end: nat)
    requires ExhaustYields(elem, data, done, offset, items, end)
    ensures |done| <= |items| && items[..|done|] == done && ItemsInTurn(elem, data, offset, items[|done|..], |data|, 1)
    decreases |data| - offset
  {
    if offset == |data| {
      assert items[|done|..] == [];
    } else {
      var v, k := ExhaustStepBack(elem, data, done, offset, items, end);
      ExhaustInTurn(elem, data, done + [v], offset + k, items, end);
      PrefixSnoc(items, done, v);
      InTurnConsAt(elem, data, offset, items, done, v, |data|, 1, k);
    }
  }

  /** A successful counted loop short of its count read one item `v` of `k` bytes, and went
      on from after it. */
  lemma CountedStepBack(elem: Ty, n: int, data: seq<byte>, done: seq<Value>, offset: nat, items: seq<Value>, end: nat)
    returns (v: Value, k: nat)
    requires |done| < n && CountedYields(elem, n, data, done, offset, items, end)
    ensures DecodesTo(elem, data[offset..], v, k) && offset + k <= |data|
    ensures CountedYields(elem, n, data, done + [v], offset + k, items, end)
  {
    var p := Decode(elem, data[offset..]).value;
    v, k := p.0, p.1;
  }

  /** A counted loop that succeeds returns `done` followed by items read in turn from `offset`,
      ending where the loop says it stopped. */
  lemma {:induction false} CountedInTurn(elem: Ty, n: int, data: seq<byte>, done: seq<Value>, offset: nat, items: seq<Value>, end: nat)
    requires CountedYields(elem, n, data, done, offset, items, end)
    ensures |done| <= |items| && items[..|done|] == done && ItemsInTurn(elem, data, offset, items[|done|..], end, 0)
    decreases n - |done|
  {
    if |done| >= n {
      assert items[|done|..] == [];
    } else {
      var v, k := CountedStepBack(elem, n, data, done, offset, items, end);
      CountedInTurn(elem, n, data, done + [v], offset + k, items, end);
      PrefixSnoc(items, done, v);
      InTurnConsAt(elem, data, offset, items, done, v, end, 0, k);
    }
  }

  /** A record loop that succeeds returns its fields read in turn, the consumed count being
      where the last of them ends. */
  lemma {:induction false} FieldsInTurn(t: Ty, data: seq<byte>, done: seq<Value>, offset: nat)
    requires t.RecTy? && |done| <= |t.fields| && offset <= |data| && DecodeFields(t, data, done, offset).Ok?
    ensures var r := DecodeFields(t, data, done, offset).value;
      |done| <= |r.0.fields| && r.0.fields[..|done|] == done
      && FieldsInOrder(t, data, offset, done, r.0.fields[|done|..], r.1)
    decreases |t.fields| - |done|
  {
    var r := DecodeFields(t, data, done, offset).value;
    if |done| == |t.fields| {
      assert r.0.fields[|done|..] == [];
    } else {
      var p := ReadField(t.fields[|done|], done, data[offset..]).value;
      FieldsInTurn(t, data, done + [p.0], offset + p.1);
      PrefixSnoc(r.0.fields, done, p.0);
      DropOne(r.0.fields, |done|);
    }
  }

  /** What a prefixed array reader returns: after the 4-byte count, `max(count, 0)` items read
      in turn, ending at the consumed count. */
  lemma PrefixedArrayInTurn(elem: Ty, length: int, data: seq<byte>)
    requires ReadArray(ArrayReader(elem, true, length), data).Ok?
    ensures var r := ReadArray(ArrayReader(elem, true, length), data).value;
      |data| >= 4 && ReadsInTurn(elem, data, 4, r.0.items, r.1, 0)
  {
    var count := UnpackInt(Int32, data[..4]);
    assert IntFromBytes(Int32, data) == Ok((count, 4));
    var r := ReadCounted(elem, count, data, [], 4).value;
    CountedInTurn(elem, count, data, [], 4, r.0, r.1);
    assert r.0[0..] == r.0;
  }

  /** What an exhaust-mode reader returns: items read in turn, each taking at least one byte,
      from the start of the input to its end. */
  lemma ExhaustArrayInTurn(elem: Ty, data: seq<byte>)
    requires ReadArray(ArrayReader(elem, false, 0), data).Ok?
    ensures var r := ReadArray(ArrayReader(elem, false, 0), data).value;
      r.1 == |data| && ReadsInTurn(elem, data, 0, r.0.items, |data|, 1)
  {
    var r := ReadExhaust(elem, data, [], 0).value;
    ExhaustInTurn(elem, data, [], 0, r.0, r.1);
    assert r.0[0..] == r.0;
  }

  /** What a record's `from_bytes` returns: its fields read in turn from the start, the
      consumed count being where the last one ends. */
  lemma RecordInTurn(t: Ty, data: seq<byte>)
    requires t.RecTy? && Decode(t, data).Ok?
    ensures var r := Decode(t, data).value;
      r.0.RecV? && FieldsReadInTurn(t, data, 0, [], r.0.fields, r.1)
  {
    FieldsInTurn(t, data, [], 0);
    assert DecodeFields(t, data, [], 0).value.0.fields[0..] == DecodeFields(t, data, [], 0).value.0.fields;
  }
}
