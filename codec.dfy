/** The codec engine as functions: `bytes(x)` for every value and `from_bytes` for every
    schema, with the cursor and the accumulator of decoded items as parameters. */
module Codec {
  import opened Wire
  import opened Ints
  import opened Strings
  import opened Schema

  /** `bytes(v)`.  An `Array` always writes its `Int32` count, whichever reader will read it;
      a record (`AutoBytes.__bytes__`) is its fields' encodings in declared order. */
  function Encode(v: Value): seq<byte>
    requires Encodable(v)
    decreases v
  {
    match v
    case IntV(f, x) => PackInt(f, x)
    case StrV(s) => StringToBytes(s)
    case BlobV(b) => BytesToBytes(b)
    case ArrV(items) => PackInt(Int32, |items|) + EncodeAll(items)
    case RecV(_, fields) => EncodeAll(fields)
  }

  /** The encodings of `vs`, concatenated in order. */
  function EncodeAll(vs: seq<Value>): seq<byte>
    requires forall i | 0 <= i < |vs| :: Encodable(vs[i])
    decreases vs
  {
    if vs == [] then [] else Encode(vs[0]) + EncodeAll(vs[1..])
  }

  /** Appending one more value appends its encoding: the shape of the encoding loops. */
  lemma {:induction false} EncodeAllSnoc(vs: seq<Value>, i: nat)
    requires i < |vs| && forall j | 0 <= j < |vs| :: Encodable(vs[j])
    ensures EncodeAll(vs[..i + 1]) == EncodeAll(vs[..i]) + Encode(vs[i])
  {
    if i > 0 {
      EncodeAllSnoc(vs[1..], i - 1);
      assert vs[1..][..i] == vs[..i + 1][1..];
      assert vs[1..][..i - 1] == vs[..i][1..];
    } else {
      assert vs[..1][1..] == [];
    }
  }

  /** `from_bytes` of schema `t` on `data`: the decoded value and the number of bytes consumed.
      It never claims more bytes than it was given. */
  function Decode(t: Ty, data: seq<byte>): (r: Result<(Value, nat)>)
    ensures r.Ok? ==> r.value.1 <= |data|
    ensures t.IntTy? && r.Ok? ==> r.value.0.IntV? && r.value.0.format == t.format && r.value.1 == t.format.ByteSize()
    ensures t.BlobTy? ==> r.Err?
    decreases t, 3
  {
    match t
    case IntTy(f) =>
      var p :- IntFromBytes(f, data);
      Ok((IntV(f, p.0), p.1))
    case StrTy =>
      var p :- StringFromBytes(data);
      Ok((StrV(Some(p.0)), p.1))
    case BlobTy => Err(NoReader)
    case ArrTy(reader) => ReadArray(reader, data)
    case RecTy(_, _) => DecodeFields(t, data, [], 0)
  }

  /** `ArrayBytesReader.from_bytes`.  With a prefix, read an `Int32` count first; without one,
      a non-zero `length` is the count; otherwise decode items until the input is used up. */
  function ReadArray(reader: ArrayReader, data: seq<byte>): (r: Result<(Value, nat)>)
    ensures r.Ok? ==> r.value.0.ArrV? && r.value.1 <= |data|
    ensures reader.lengthPrefix ==>
      (|data| < 4 ==> r.Err?) &&
      (r.Ok? ==> 4 <= r.value.1 &&
                 |r.value.0.items| == if UnpackInt(Int32, data[..4]) < 0 then 0 else UnpackInt(Int32, data[..4]))
    ensures !reader.lengthPrefix && reader.length != 0 && r.Ok? ==>
      |r.value.0.items| == if reader.length < 0 then 0 else reader.length
    ensures !reader.lengthPrefix && reader.length == 0 && r.Ok? ==> r.value.1 == |data|
    decreases reader.elem, 5
  {
    if reader.lengthPrefix || reader.length != 0 then
      var start :-
        if reader.lengthPrefix then IntFromBytes(Int32, data) else Ok((reader.length, 0));
      var p :- ReadCounted(reader.elem, start.0, data, [], start.1);
      Ok((ArrV(p.0), p.1))
    else
      var p :- ReadExhaust(reader.elem, data, [], 0);
      Ok((ArrV(p.0), p.1))
  }

  /** The counted loop: `items` decoded so far, `offset` the cursor; stop after `count` items
      (none at all when `count` is negative). */
  function ReadCounted(elem: Ty, count: int, data: seq<byte>, items: seq<Value>, offset: nat)
    : (r: Result<(seq<Value>, nat)>)
    requires offset <= |data|
    ensures r.Ok? ==> offset <= r.value.1 <= |data|
    ensures r.Ok? ==> |r.value.0| == if count < |items| then |items| else count
    decreases elem, 4, count - |items|
  {
    if |items| >= count then Ok((items, offset))
    else
      var p :- Decode(elem, data[offset..]);
      ReadCounted(elem, count, data, items + [p.0], offset + p.1)
  }

  /** The exhaust loop: decode until the cursor reaches the end.  An item that consumes nothing
      leaves the cursor where it was; the source then loops forever, here it is `NoProgress`. */
  function ReadExhaust(elem: Ty, data: seq<byte>, items: seq<Value>, offset: nat)
    : (r: Result<(seq<Value>, nat)>)
    requires offset <= |data|
    ensures r.Ok? ==> r.value.1 == |data|
    decreases elem, 4, |data| - offset
  {
    if offset == |data| then Ok((items, offset))
    else
      var p :- Decode(elem, data[offset..]);
      if p.1 == 0 then Err(NoProgress)
      else ReadExhaust(elem, data, items + [p.0], offset + p.1)
  }

  /** `get_field_readers` and the call of the reader it yields, for the field after `items`.
      A `CountFromItem(i)` field (the chunk's messages) reads with a copy of its array reader whose
      `length` is set to the integer decoded as `items[i]`; no count prefix is read. */
  function ReadField(f: Field, items: seq<Value>, data: seq<byte>): (r: Result<(Value, nat)>)
    ensures r.Ok? ==> r.value.1 <= |data|
    decreases f.ty, 4
  {
    match f.reader
    case Declared => Decode(f.ty, data)
    case CountFromItem(i) =>
      if f.ty.ArrTy? && i < |items| && items[i].IntV? then
        ReadArray(Copy(f.ty.reader).(length := items[i].num), data)
      else Err(BadCountReference)
  }

  /** `AutoBytes.from_bytes`: walk the fields in declared order, each reading `data[offset:]` and
      advancing the cursor by what it consumed; then build the record from the items.
      Bytes after the last field are not looked at. */
  function DecodeFields(t: Ty, data: seq<byte>, items: seq<Value>, offset: nat): (r: Result<(Value, nat)>)
    requires t.RecTy? && |items| <= |t.fields| && offset <= |data|
    ensures r.Ok? ==> offset <= r.value.1 <= |data|
    ensures r.Ok? ==> r.value.0.RecV? && r.value.0.name == t.name && |r.value.0.fields| == |t.fields|
    decreases t, 2, |t.fields| - |items|
  {
    if |items| == |t.fields| then Ok((RecV(t.name, items), offset))
    else
      var p :- ReadField(t.fields[|items|], items, data[offset..]);
      DecodeFields(t, data, items + [p.0], offset + p.1)
  }
}
