/** The declarative part of the codec: record schemas (the dataclass field lists and their
    readers) and the runtime values they describe. */
module Schema {
  import opened Wire
  import opened Ints
  import opened Strings

  /** What a field is read with.  An integer, a `String` or a `Bytes` field is read by its own
      class; an array field by the `ArrayBytesReader` in its metadata; a nested record by its
      class's `from_bytes`. */
  datatype Ty =
    | IntTy(format: IntFormat)
    | StrTy
    | BlobTy
    | ArrTy(reader: ArrayReader)
    | RecTy(name: string, fields: seq<Field>)

  /** `ArrayBytesReader(type, length_prefix, length)`. */
  datatype ArrayReader = ArrayReader(elem: Ty, lengthPrefix: bool, length: int)

  /** How the record's `get_field_readers` hands out the reader of one field. */
  datatype FieldReader =
    | Declared              // the field's own reader, as declared in the schema
    | CountFromItem(index: nat)  // a copy of the array reader whose length is the already-decoded items[index]

  datatype Field = Field(name: string, ty: Ty, reader: FieldReader)

  /** A runtime object.  Each carries its own class, as in Python: `bytes(x)` depends on
      the object alone, not on the field it sits in. */
  datatype Value =
    | IntV(format: IntFormat, num: int)
    | StrV(str: Option<seq<byte>>)
    | BlobV(blob: seq<byte>)
    | ArrV(items: seq<Value>)
    | RecV(name: string, fields: seq<Value>)

  /** `ArrayBytesReader.copy`: `length` is an InitVar, so the constructor drops it and the
      copy reads the class default 0. */
  function Copy(r: ArrayReader): ArrayReader {
    ArrayReader(r.elem, r.lengthPrefix, 0)
  }

  /** `bytes(v)` raises nothing: every integer is in range for its format, and every length
      that is packed fits its prefix. */
  predicate Encodable(v: Value) {
    match v
    case IntV(f, x) => f.InRange(x)
    case StrV(s) => s.Some? ==> |s.value| <= MaxStringLength
    case BlobV(b) => |b| <= MaxBlobLength
    case ArrV(items) => |items| <= Int32.Max() && forall i | 0 <= i < |items| :: Encodable(items[i])
    case RecV(_, fields) => forall i | 0 <= i < |fields| :: Encodable(fields[i])
  }

  /** `v` is an encodable value of schema `t` that the schema's readers read back: integers of
      the declared format, non-null strings, length-prefixed arrays, records whose fields all
      use their declared readers.  A blob never fits: nothing can read one. */
  predicate Fits(t: Ty, v: Value)
    ensures Fits(t, v) ==> Encodable(v)
    decreases t, 0
  {
    match t
    case IntTy(f) => v.IntV? && v.format == f && f.InRange(v.num)
    case StrTy => v.StrV? && v.str.Some? && |v.str.value| <= MaxStringLength
    case BlobTy => false
    case ArrTy(r) => v.ArrV? && r.lengthPrefix && |v.items| <= Int32.Max() && AllFit(r.elem, v.items)
    case RecTy(name, fields) => v.RecV? && v.name == name && |v.fields| == |fields| && FieldsFit(fields, v.fields)
  }

  /** Every one of `vs` fits the element schema `elem`. */
  predicate AllFit(elem: Ty, vs: seq<Value>)
    ensures AllFit(elem, vs) ==> forall i | 0 <= i < |vs| :: Encodable(vs[i])
    decreases elem, 1
  {
    forall i | 0 <= i < |vs| :: Fits(elem, vs[i])
  }

  /** `values` are the leading fields of a record whose first `|values|` field descriptors are
      `fields`: each is read with its declared reader and fits its schema. */
  predicate FieldsFit(fields: seq<Field>, values: seq<Value>)
    ensures FieldsFit(fields, values) ==> forall i | 0 <= i < |values| :: Encodable(values[i])
    decreases fields
  {
    |values| <= |fields| &&
    forall i | 0 <= i < |values| :: fields[i].reader == Declared && Fits(fields[i].ty, values[i])
  }
}
