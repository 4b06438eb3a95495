/** `Frame`: a record wrapped for the wire, its encoding preceded by its `UInt32` byte length,
    which does not count the length itself. */
module Frames {
  import opened Wire
  import opened Ints
  import opened Schema
  import opened Codec
  import opened RoundTrip
  import opened Commands

  /** The `Frame` record around `v`: its one field is `value`. */
  function FrameOf(v: Value): Value {
    RecV("Frame", [v])
  }

  /** `Frame.__bytes__`: the record's own bytes, the `value` field alone, after their length as
      a `UInt32`, which must hold it. */
  function EncodeFrame(v: Value): (r: seq<byte>)
    requires Encodable(v) && UInt32.InRange(|Encode(v)|)
    ensures Encodable(FrameOf(v))
    ensures |r| == 4 + |Encode(v)| && UnpackInt(UInt32, r[..4]) == |Encode(v)| && r[4..] == Encode(v)
  {
    var data := Encode(FrameOf(v));
    assert data == Encode(v) by {
      assert [v][1..] == [];
      assert EncodeAll([v]) == Encode(v) + EncodeAll([]);
    }
    UnpackPack(UInt32, |data|);
    PackInt(UInt32, |data|) + data
  }

  /** The client's read of a reply: 4 bytes give the size as a `UInt32`, then exactly that many
      bytes are handed to the schema's `from_bytes`, which reads back the framed value, whatever
      follows the frame. */
  lemma FrameReadBack(t: Ty, v: Value, rest: seq<byte>)
    requires Fits(t, v) && UInt32.InRange(|Encode(v)|)
    ensures var n := |Encode(v)|;
      var wire := EncodeFrame(v) + rest;
      IntFromBytes(UInt32, wire) == Ok((n, 4)) && Decode(t, wire[4..4 + n]) == Ok((v, n))
  {
    var n := |Encode(v)|;
    var frame := EncodeFrame(v);
    var wire := frame + rest;
    assert frame[..4] == PackInt(UInt32, n) by {
      PackUnpack(UInt32, frame[..4]);
    }
    assert frame == PackInt(UInt32, n) + Encode(v);
    IntRoundTrip(UInt32, n, Encode(v) + rest);
    assert wire == PackInt(UInt32, n) + (Encode(v) + rest);
    assert wire[4..4 + n] == Encode(v) + [];
    RoundTrip.RoundTrip(t, v, []);
  }

  /** 17 as a `UInt32` is `00 00 00 11`. */
  lemma SeventeenPacks()
    ensures PackInt(UInt32, 17) == [0, 0, 0, 0x11]
  {
    ZeroBytes(3);
    assert ToBigEndian(17, 4) == ToBigEndian(0, 3) + [17];
  }

  /** The `PublishConfirm` of the client's test travels as a 21-byte frame that starts with its
      length, 17, as `00 00 00 11`. */
  lemma PublishConfirmFrame()
    ensures Encodable(ConfirmOne) && UInt32.InRange(|Encode(ConfirmOne)|)
    ensures |EncodeFrame(ConfirmOne)| == 21 && EncodeFrame(ConfirmOne)[..4] == [0, 0, 0, 0x11]
  {
    PublishConfirmTest();
    var frame := EncodeFrame(ConfirmOne);
    PackUnpack(UInt32, frame[..4]);
    SeventeenPacks();
  }
}
