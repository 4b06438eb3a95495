/** `String` (nullable text with a signed 16-bit length) and `Bytes` (blob with a 32-bit length).
    Text is represented by its UTF-8 encoding. */
module Strings {
  import opened Wire
  import opened Ints

  /** Python's normalisation of one slice bound `i` against a sequence of length `n`:
      a negative bound counts from the end, and the result is clamped to `0..n`. */
  function SliceBound(n: nat, i: int): (b: nat)
    ensures b <= n
    ensures 0 <= i <= n ==> b == i
  {
    if i < 0 then (if n + i < 0 then 0 else n + i) else if i > n then n else i
  }

  /** Python's `data[start:stop]`. */
  function Slice(data: seq<byte>, start: int, stop: int): seq<byte> {
    var a := SliceBound(|data|, start);
    var b := SliceBound(|data|, stop);
    if b <= a then [] else data[a..b]
  }

  /** Upper bound of a non-null payload: the length must fit `Int16`. */
  const MaxStringLength := 0x7FFF

  /** `String.__len__`: -1 for null, else the number of UTF-8 bytes. */
  function StringLen(s: Option<seq<byte>>): int {
    match s
    case None => -1
    case Some(e) => |e|
  }

  /** `String.__bytes__`: null is `Int16(-1)` with no payload; otherwise `Int16(len)` then the bytes. */
  function StringToBytes(s: Option<seq<byte>>): (r: seq<byte>)
    requires s.Some? ==> |s.value| <= MaxStringLength
    ensures |r| >= 2 && UnpackInt(Int16, r[..2]) == StringLen(s)
    ensures r[2..] == if s.Some? then s.value else []
  {
    var n := StringLen(s);
    UnpackPack(Int16, n);
    var head := PackInt(Int16, n);
    var r := if s.Some? then head + s.value else head;
    assert r[..2] == head;
    r
  }

  /** `String.from_bytes`: read an `Int16` length, then `struct.unpack("c" * length, data[2:2 + length])`.
      A negative length asks for zero bytes, but the slice bound `2 + length` is negative once
      `length < -2` and then counts from the end of `data`. */
  function StringFromBytes(data: seq<byte>): (r: Result<(seq<byte>, nat)>)
    ensures |data| < 2 ==> r.Err?
    ensures r.Ok? ==> 2 <= r.value.1 <= |data| && r.value.0 == data[2..r.value.1]
  {
    var p :- IntFromBytes(Int16, data);
    var length := p.0;
    var offset := p.1;
    var chunk := Slice(data, offset, offset + length);
    if |chunk| != (if length < 0 then 0 else length) then Err(StructError)
    else Ok((chunk, offset + |chunk|))
  }

  /** A present string decodes back to itself, consuming its 2-byte length and its payload;
      bytes after it are left alone. */
  lemma StringRoundTrip(e: seq<byte>, rest: seq<byte>)
    requires |e| <= MaxStringLength
    ensures StringFromBytes(StringToBytes(Some(e)) + rest) == Ok((e, 2 + |e|))
  {
    var b := StringToBytes(Some(e));
    var data := b + rest;
    IntRoundTrip(Int16, |e|, e + rest);
    assert data == PackInt(Int16, |e|) + (e + rest);
    assert data[2..2 + |e|] == e;
  }

  /** Null is written as `FF FF`, is read as the EMPTY string, and consumes those 2 bytes
      whatever follows: null does not survive a round trip. */
  lemma NullDecodesAsEmpty(rest: seq<byte>)
    ensures StringToBytes(None) == [0xFF, 0xFF]
    ensures StringFromBytes(StringToBytes(None) + rest) == Ok(([], 2))
  {
    assert ToBigEndian(0xFF, 1) == [0xFF];
    assert PackInt(Int16, -1) == [0xFF, 0xFF];
    IntRoundTrip(Int16, -1, rest);
  }

  /** A negative length yields the empty string after 2 bytes exactly when the slice it
      computes is empty: always for -1 and -2, and for smaller lengths only when no more
      than `-length` bytes are supplied; otherwise `struct.unpack` fails. */
  lemma NegativeLength(data: seq<byte>)
    requires |data| >= 2 && UnpackInt(Int16, data[..2]) < 0
    ensures var length := UnpackInt(Int16, data[..2]);
      StringFromBytes(data).Ok? <==> (length >= -2 || |data| + length <= 0)
    ensures StringFromBytes(data).Ok? ==> StringFromBytes(data) == Ok(([], 2))
  {
  }

  /** A non-negative length succeeds exactly when that many payload bytes follow. */
  lemma NonNegativeLength(data: seq<byte>)
    requires |data| >= 2 && UnpackInt(Int16, data[..2]) >= 0
    ensures var length := UnpackInt(Int16, data[..2]);
      (StringFromBytes(data).Ok? <==> |data| >= 2 + length) &&
      (StringFromBytes(data).Ok? ==> StringFromBytes(data) == Ok((data[2..2 + length], 2 + length)))
  {
  }

  /** Upper bound of a blob: its length is packed as a signed `Int32`. */
  const MaxBlobLength := 0x7FFF_FFFF

  /** `Bytes.__bytes__`: `Int32(len)` then the raw bytes. (There is no `Bytes.from_bytes`.) */
  function BytesToBytes(b: seq<byte>): (r: seq<byte>)
    requires |b| <= MaxBlobLength
    ensures |r| == 4 + |b| && UnpackInt(Int32, r[..4]) == |b| && r[4..] == b
  {
    UnpackPack(Int32, |b|);
    var head := PackInt(Int32, |b|);
    assert (head + b)[..4] == head;
    head + b
  }

  /** Example encodings: a two-byte string, the empty string and null. */
  lemma StringExamples()
    ensures StringToBytes(Some([0x68, 0x69])) == [0x00, 0x02, 0x68, 0x69]
    ensures StringToBytes(Some([])) == [0x00, 0x00]
    ensures StringToBytes(None) == [0xFF, 0xFF]
  {
    assert ToBigEndian(0, 1) == [0x00];
    assert ToBigEndian(0xFF, 1) == [0xFF];
    assert PackInt(Int16, 2) == [0x00, 0x02];
    assert PackInt(Int16, 0) == [0x00, 0x00];
    assert PackInt(Int16, -1) == [0xFF, 0xFF];
  }
}
