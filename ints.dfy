/** BaseInt and its eight subclasses: big-endian fixed-width integers packed with `struct`. */
module Ints {
  import opened Wire

  /** The eight `struct` formats `>b >h >i >q >B >H >I >Q`. */
  datatype IntFormat = Int8 | Int16 | Int32 | Int64 | UInt8 | UInt16 | UInt32 | UInt64
  {
    /** The class attribute `byte_size`. */
    function ByteSize(): nat {
      match this
      case Int8 | UInt8 => 1
      case Int16 | UInt16 => 2
      case Int32 | UInt32 => 4
      case Int64 | UInt64 => 8
    }

    /** Lower-case formats are two's complement. */
    predicate Signed() {
      Int8? || Int16? || Int32? || Int64?
    }

    /** 256 to the power of the width. */
    function Modulus(): nat {
      match this
      case Int8 | UInt8 => 0x100
      case Int16 | UInt16 => 0x1_0000
      case Int32 | UInt32 => 0x1_0000_0000
      case Int64 | UInt64 => 0x1_0000_0000_0000_0000
    }

    function Min(): int { if Signed() then -(Modulus() / 2) else 0 }

    function Max(): int { if Signed() then Modulus() / 2 - 1 else Modulus() - 1 }

    /** The values `struct.pack` accepts for this format (it raises `struct.error` otherwise). */
    predicate InRange(x: int) { Min() <= x <= Max() }
  }

  function Pow256(n: nat): (r: nat)
    ensures r >= 1
  {
    if n == 0 then 1 else 256 * Pow256(n - 1)
  }

  lemma ModulusIsPow256(f: IntFormat)
    ensures f.Modulus() == Pow256(f.ByteSize())
  {
    assert Pow256(1) == 0x100;
    assert Pow256(2) == 0x1_0000;
    assert Pow256(3) == 0x100_0000;
    assert Pow256(4) == 0x1_0000_0000;
    assert Pow256(5) == 0x100_0000_0000;
    assert Pow256(6) == 0x1_0000_0000_0000;
    assert Pow256(7) == 0x100_0000_0000_0000;
    assert Pow256(8) == 0x1_0000_0000_0000_0000;
  }

  /** The `width` big-endian digits, base 256, of `n`. */
  function ToBigEndian(n: nat, width: nat): (r: seq<byte>)
    requires n < Pow256(width)
    ensures |r| == width
  {
    if width == 0 then [] else ToBigEndian(n / 256, width - 1) + [n % 256]
  }

  /** The number whose big-endian base-256 digits are `s`. */
  function FromBigEndian(s: seq<byte>): (n: nat)
    ensures n < Pow256(|s|)
  {
    if s == [] then 0 else FromBigEndian(s[..|s| - 1]) * 256 + s[|s| - 1]
  }

  lemma {:induction false} FromToBigEndian(n: nat, width: nat)
    requires n < Pow256(width)
    ensures FromBigEndian(ToBigEndian(n, width)) == n
  {
    if width > 0 {
      var hi := ToBigEndian(n / 256, width - 1);
      FromToBigEndian(n / 256, width - 1);
      assert (hi + [n % 256])[..width - 1] == hi;
    }
  }

  lemma {:induction false} ToFromBigEndian(s: seq<byte>)
    ensures ToBigEndian(FromBigEndian(s), |s|) == s
  {
    if s != [] {
      var init := s[..|s| - 1];
      ToFromBigEndian(init);
      assert s == init + [s[|s| - 1]];
    }
  }

  /** `struct.pack(">" + format, x)`: `BaseInt.__bytes__`. */
  function PackInt(f: IntFormat, x: int): (r: seq<byte>)
    requires f.InRange(x)
    ensures |r| == f.ByteSize()
  {
    ModulusIsPow256(f);
    ToBigEndian(if x < 0 then x + f.Modulus() else x, f.ByteSize())
  }

  /** `struct.unpack(">" + format, s)` on a buffer of exactly the format's size. */
  function UnpackInt(f: IntFormat, s: seq<byte>): (x: int)
    requires |s| == f.ByteSize()
    ensures f.InRange(x)
  {
    ModulusIsPow256(f);
    var u := FromBigEndian(s);
    if f.Signed() && u >= f.Modulus() / 2 then u - f.Modulus() else u
  }

  /** Unpacking inverts packing on every value the format can hold. */
  lemma UnpackPack(f: IntFormat, x: int)
    requires f.InRange(x)
    ensures UnpackInt(f, PackInt(f, x)) == x
  {
    ModulusIsPow256(f);
    FromToBigEndian(if x < 0 then x + f.Modulus() else x, f.ByteSize());
  }

  /** Packing inverts unpacking on every buffer of the format's size. */
  lemma PackUnpack(f: IntFormat, s: seq<byte>)
    requires |s| == f.ByteSize()
    ensures PackInt(f, UnpackInt(f, s)) == s
  {
    ModulusIsPow256(f);
    ToFromBigEndian(s);
  }

  /** `BaseInt.from_bytes`: slice `data[:byte_size]`, unpack it, report its length as consumed. */
  function IntFromBytes(f: IntFormat, data: seq<byte>): (r: Result<(int, nat)>)
    ensures r.Ok? <==> |data| >= f.ByteSize()
    ensures r.Ok? ==> r.value.1 == f.ByteSize() && f.InRange(r.value.0)
  {
    var head := data[..Min(f.ByteSize(), |data|)];
    if |head| != f.ByteSize() then Err(StructError) else Ok((UnpackInt(f, head), |head|))
  }

  /** Decoding never looks past the first `byte_size` bytes. */
  lemma IntFromBytesReadsOnlyWidth(f: IntFormat, data: seq<byte>, rest: seq<byte>)
    requires |data| >= f.ByteSize()
    ensures IntFromBytes(f, data + rest) == IntFromBytes(f, data[..f.ByteSize()])
  {
    var n := f.ByteSize();
    assert (data + rest)[..n] == data[..n];
    assert data[..n][..n] == data[..n];
  }

  /** Encoding then decoding gives the value back, consuming exactly `byte_size`. */
  lemma IntRoundTrip(f: IntFormat, x: int, rest: seq<byte>)
    requires f.InRange(x)
    ensures IntFromBytes(f, PackInt(f, x) + rest) == Ok((x, f.ByteSize()))
  {
    var b := PackInt(f, x);
    assert (b + rest)[..f.ByteSize()] == b;
    UnpackPack(f, x);
  }

  /** Conversely, a successful decode re-encodes to exactly the bytes it consumed. */
  lemma IntDecodeEncode(f: IntFormat, data: seq<byte>)
    requires IntFromBytes(f, data).Ok?
    ensures PackInt(f, IntFromBytes(f, data).value.0) == data[..f.ByteSize()]
  {
    PackUnpack(f, data[..f.ByteSize()]);
  }
}
