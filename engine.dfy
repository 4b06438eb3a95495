/** The codec engine as the source runs it: loops that append to an accumulating byte string,
    and loops that advance an `offset` cursor while appending to an `items` list.  Each method
    is proved to compute exactly the corresponding function of module Codec. */
module Engine {
  import opened Wire
  import opened Ints
  import opened Strings
  import opened Schema
  import opened Codec

  /** `bytes(v)`: primitives are straight-line, arrays and records loop. */
  method ToBytes(v: Value) returns (b: seq<byte>)
    requires Encodable(v)
    ensures b == Encode(v)
    decreases v, 1
  {
    match v
    case ArrV(items) => b := ArrayToBytes(items);
    case RecV(name, fields) => b := RecordToBytes(name, fields);
    case _ => b := Encode(v);
  }

  /** `Array.__bytes__`: `b = bytes(Int32(len(items)))`, then `b += bytes(item)` per item. */
  method ArrayToBytes(items: seq<Value>) returns (b: seq<byte>)
    requires |items| <= Int32.Max() && forall i | 0 <= i < |items| :: Encodable(items[i])
    ensures b == Encode(ArrV(items))
    decreases items, 0
  {
    b := PackInt(Int32, |items|);
    for i := 0 to |items|
      invariant b == PackInt(Int32, |items|) + EncodeAll(items[..i])
    {
      var e := ToBytes(items[i]);
      EncodeAllSnoc(items, i);
      b := b + e;
    }
    assert items[..|items|] == items;
  }

  /** `AutoBytes.__bytes__`: `data += bytes(getattr(self, field.name))` per field, in order. */
  method RecordToBytes(name: string, fields: seq<Value>) returns (b: seq<byte>)
    requires forall i | 0 <= i < |fields| :: Encodable(fields[i])
    ensures b == Encode(RecV(name, fields))
    decreases fields, 0
  {
    b := [];
    for i := 0 to |fields|
      invariant b == EncodeAll(fields[..i])
    {
      var e := ToBytes(fields[i]);
      EncodeAllSnoc(fields, i);
      b := b + e;
    }
    assert fields[..|fields|] == fields;
  }

  /** `from_bytes` of schema `t`. */
  method FromBytes(t: Ty, data: seq<byte>) returns (r: Result<(Value, nat)>)
    ensures r == Decode(t, data)
    decreases t, 3
  {
    match t
    case ArrTy(reader) => r := ArrayFromBytes(reader, data);
    case RecTy(_, _) => r := RecordFromBytes(t, data);
    case _ => r := Decode(t, data);
  }

  /** `ArrayBytesReader.from_bytes`, with its counted `for` loop and its exhaust `while` loop. */
  method ArrayFromBytes(reader: ArrayReader, data: seq<byte>) returns (r: Result<(Value, nat)>)
    ensures r == ReadArray(reader, data)
    decreases reader.elem, 5
  {
    var items: seq<Value> := [];
    var offset: nat := 0;
    if reader.lengthPrefix || reader.length != 0 {
      var length: int;
      if reader.lengthPrefix {
        var prefix := IntFromBytes(Int32, data);
        if prefix.Err? {
          return Err(prefix.error);
        }
        length, offset := prefix.value.0, prefix.value.1;
      } else {
        length := reader.length;
      }
      ghost var start := offset;
      var i := 0;
      while i < length
        invariant i == |items| && offset <= |data|
        invariant ReadCounted(reader.elem, length, data, items, offset)
               == ReadCounted(reader.elem, length, data, [], start)
        decreases length - i
      {
        var item := FromBytes(reader.elem, data[offset..]);
        if item.Err? {
          return Err(item.error);
        }
        items := items + [item.value.0];
        offset := offset + item.value.1;
        i := i + 1;
      }
    } else {
      while offset != |data|
        invariant offset <= |data|
        invariant ReadExhaust(reader.elem, data, items, offset) == ReadExhaust(reader.elem, data, [], 0)
        decreases |data| - offset
      {
        var item := FromBytes(reader.elem, data[offset..]);
        if item.Err? {
          return Err(item.error);
        }
        if item.value.1 == 0 {
          // The source's cursor stops moving here and the loop never ends.
          return Err(NoProgress);
        }
        items := items + [item.value.0];
        offset := offset + item.value.1;
      }
    }
    r := Ok((ArrV(items), offset));
  }

  /** `AutoBytes.from_bytes`: for each field reader that `get_field_readers(items)` yields,
      `item, n = reader.from_bytes(data[offset:])`, append the item, advance the cursor. */
  method RecordFromBytes(t: Ty, data: seq<byte>) returns (r: Result<(Value, nat)>)
    requires t.RecTy?
    ensures r == DecodeFields(t, data, [], 0)
    decreases t, 2
  {
    var items: seq<Value> := [];
    var offset: nat := 0;
    for i := 0 to |t.fields|
      invariant i == |items| && offset <= |data|
      invariant DecodeFields(t, data, items, offset) == DecodeFields(t, data, [], 0)
    {
      var field := t.fields[i];
      var item: Result<(Value, nat)>;
      match field.reader {
        case Declared =>
          item := FromBytes(field.ty, data[offset..]);
        case CountFromItem(j) =>
          if field.ty.ArrTy? && j < |items| && items[j].IntV? {
            var reader := Copy(field.ty.reader);
            reader := reader.(length := items[j].num);
            item := ArrayFromBytes(reader, data[offset..]);
          } else {
            item := Err(BadCountReference);
          }
      }
      assert item == ReadField(field, items, data[offset..]);
      if item.Err? {
        return Err(item.error);
      }
      items := items + [item.value.0];
      offset := offset + item.value.1;
    }
    r := Ok((RecV(t.name, items), offset));
  }
}
