/** What the catalog's schemas imply for particular commands: the `PublishConfirm` round trip
    of the client's test, the commands that carry a `Bytes` field and so cannot be read back,
    and the chunk of a `Deliver`, whose message count is read from `num_entries`. */
module Commands {
  import opened Wire
  import opened Ints
  import opened Schema
  import opened Codec
  import opened RoundTrip
  import opened Catalog

  /** Zero written in `k` big-endian bytes is `k` zero bytes. */
  lemma {:induction false} ZeroBytes(k: nat)
    ensures Pow256(k) > 0 && ToBigEndian(0, k) == seq(k, _ => 0)
  {
    if k > 0 {
      ZeroBytes(k - 1);
      assert ToBigEndian(0, k) == ToBigEndian(0, k - 1) + [0];
    }
  }

  /** One written in `k >= 1` big-endian bytes is `k - 1` zero bytes and a one. */
  lemma OneBytes(k: nat)
    requires k >= 1
    ensures Pow256(k) > 1 && ToBigEndian(1, k) == seq(k - 1, _ => 0) + [1]
  {
    ZeroBytes(k - 1);
  }

  /** One in the formats the `PublishConfirm` test uses. */
  lemma OnePacks()
    ensures PackInt(UInt8, 1) == [1] && PackInt(UInt16, 1) == [0, 1]
    ensures PackInt(Int32, 1) == [0, 0, 0, 1] && PackInt(UInt64, 1) == [0, 0, 0, 0, 0, 0, 0, 1]
  {
    OneBytes(1);
    OneBytes(2);
    OneBytes(4);
    OneBytes(8);
  }

  /** The record built by the client's `PublishConfirm` test. */
  const ConfirmOne := RecV("PublishConfirm",
    [IntV(UInt16, 1), IntV(UInt16, 1), IntV(UInt8, 1), ArrV([IntV(UInt64, 1)])])

  /** The test's record is one the schema reads back. */
  lemma ConfirmOneFits()
    ensures Fits(PublishConfirm, ConfirmOne)
  {
    assert AllFit(U64, [IntV(UInt64, 1)]);
    assert FieldsFit(PublishConfirm.fields, ConfirmOne.fields);
  }

  /** The encodings from index `i` on: the `i`-th, then those after it. */
  lemma EncodeAllFrom(vs: seq<Value>, i: nat)
    requires i < |vs| && forall j | 0 <= j < |vs| :: Encodable(vs[j])
    ensures EncodeAll(vs[i..]) == Encode(vs[i]) + EncodeAll(vs[i + 1..])
  {
    assert vs[i..][1..] == vs[i + 1..];
  }

  /** The test's `publishing_ids`: the `Int32` count 1, then the one `UInt64` id. */
  lemma ConfirmIdsBytes()
    ensures Encodable(ConfirmOne.fields[3])
    ensures Encode(ConfirmOne.fields[3]) == [0, 0, 0, 1] + [0, 0, 0, 0, 0, 0, 0, 1]
  {
    OnePacks();
    var ids := [IntV(UInt64, 1)];
    assert ids[1..] == [];
    assert EncodeAll(ids) == Encode(ids[0]) + EncodeAll([]);
  }

  /** The test's record is 17 bytes: key, version, publisher id, then the array's `Int32`
      count and its one `UInt64` id. */
  lemma ConfirmOneBytes()
    ensures Encodable(ConfirmOne)
    ensures Encode(ConfirmOne)
         == [0, 1] + ([0, 1] + ([1] + ([0, 0, 0, 1] + [0, 0, 0, 0, 0, 0, 0, 1])))
  {
    OnePacks();
    ConfirmIdsBytes();
    var vs := ConfirmOne.fields;
    assert Encodable(ConfirmOne);
    assert vs[4..] == [];
    EncodeAllFrom(vs, 3);
    EncodeAllFrom(vs, 2);
    EncodeAllFrom(vs, 1);
    EncodeAllFrom(vs, 0);
    assert vs[0..] == vs;
  }

  /** The client's `PublishConfirm` test: the record encodes to 17 bytes and `from_bytes`
      gives it back having consumed all of them. */
  lemma PublishConfirmTest()
    ensures Encodable(ConfirmOne) && |Encode(ConfirmOne)| == 17
    ensures Decode(PublishConfirm, Encode(ConfirmOne)) == Ok((ConfirmOne, 17))
  {
    ConfirmOneFits();
    ConfirmOneBytes();
    RoundTrip.RoundTrip(PublishConfirm, ConfirmOne, []);
    assert Encode(ConfirmOne) + [] == Encode(ConfirmOne);
  }

  /** The fields from `items` on include one of type `Bytes` read by its declared reader. */
  predicate BlobAhead(t: Ty, items: seq<Value>)
    requires t.RecTy?
  {
    exists j | |items| <= j < |t.fields| :: t.fields[j].ty == BlobTy && t.fields[j].reader == Declared
  }

  /** `Bytes` has no `from_bytes`: decoding a record fails whenever a `Bytes` field is still
      ahead, whatever the input; the fields before it may fail first. */
  lemma {:induction false} BlobFieldFails(t: Ty, data: seq<byte>, items: seq<Value>, offset: nat)
    requires t.RecTy? && |items| <= |t.fields| && offset <= |data| && BlobAhead(t, items)
    ensures DecodeFields(t, data, items, offset).Err?
    decreases |t.fields| - |items|
  {
    var j :| |items| <= j < |t.fields| && t.fields[j].ty == BlobTy && t.fields[j].reader == Declared;
    var r := ReadField(t.fields[|items|], items, data[offset..]);
    if r.Ok? {
      assert j != |items|;
      BlobFieldFails(t, data, items + [r.value.0], offset + r.value.1);
    }
  }

  /** Neither SASL authentication command can ever be read back: both end in `Bytes`. */
  lemma SaslAuthenticateNeverDecodes(data: seq<byte>)
    ensures Decode(SaslAuthenticateRequest, data).Err?
    ensures Decode(SaslAuthenticateResponse, data).Err?
  {
    assert SaslAuthenticateRequest.fields[4].ty == BlobTy;
    BlobFieldFails(SaslAuthenticateRequest, data, [], 0);
    assert SaslAuthenticateResponse.fields[4].ty == BlobTy;
    BlobFieldFails(SaslAuthenticateResponse, data, [], 0);
  }

  /** `n` copies of the empty `Message` record. */
  function Messages(n: nat): seq<Value> {
    seq(n, _ => RecV(Message.name, []))
  }

  /** An empty `Message` encodes to nothing. */
  lemma {:induction false} MessagesEncodeEmpty(n: nat)
    ensures EncodeAll(Messages(n)) == []
  {
    if n > 0 {
      MessagesEncodeEmpty(n - 1);
      assert Messages(n)[1..] == Messages(n - 1);
    }
  }

  /** A `Message` is read from any input without consuming anything, so a count read from
      elsewhere yields that many messages and consumes nothing. */
  lemma {:induction false} CountedMessages(n: nat, data: seq<byte>, items: seq<Value>)
    requires |items| <= n
    ensures ReadCounted(Message, n, data, items, 0) == Ok((items + Messages(n - |items|), 0))
    decreases n - |items|
  {
    if |items| < n {
      assert Decode(Message, data[0..]) == Ok((RecV(Message.name, []), 0));
      CountedMessages(n, data, items + [RecV(Message.name, [])]);
      assert items + [RecV(Message.name, [])] + Messages(n - |items| - 1) == items + Messages(n - |items|);
    } else {
      assert items + Messages(0) == items;
    }
  }

  /** The seven header values fit the chunk's header fields. */
  predicate HeaderFits(h: seq<Value>)
    ensures HeaderFits(h) ==> |h| == 7 && h[NumEntries].IntV? && UInt16.InRange(h[NumEntries].num)
  {
    |h| == 7 && FieldsFit(ChunkHeader, h) && Fits(ChunkHeader[NumEntries].ty, h[NumEntries])
  }

  /** Each header field is written in the width of its declared format. */
  lemma HeaderFieldSize(h: seq<Value>, i: nat)
    requires HeaderFits(h) && i < 7
    ensures |Encode(h[i])| == [1, 2, 4, 8, 8, 4, 4][i]
  {
    assert Fits(ChunkHeader[i].ty, h[i]);
  }

  /** The chunk header is 31 bytes: 1 + 2 + 4 + 8 + 8 + 4 + 4. */
  lemma HeaderLength(h: seq<Value>)
    requires HeaderFits(h)
    ensures |EncodeAll(h)| == 31
  {
    assert h[7..] == [];
    EncodeAllFrom(h, 6); HeaderFieldSize(h, 6);
    EncodeAllFrom(h, 5); HeaderFieldSize(h, 5);
    EncodeAllFrom(h, 4); HeaderFieldSize(h, 4);
    EncodeAllFrom(h, 3); HeaderFieldSize(h, 3);
    EncodeAllFrom(h, 2); HeaderFieldSize(h, 2);
    EncodeAllFrom(h, 1); HeaderFieldSize(h, 1);
    EncodeAllFrom(h, 0); HeaderFieldSize(h, 0);
    assert h[0..] == h;
  }

  /** After a fitting header, the chunk stands at `messages` with the header read back. */
  lemma HeaderReadBack(h: seq<Value>, rest: seq<byte>)
    requires HeaderFits(h)
    ensures |EncodeAll(h)| == 31
    ensures DecodeFields(OsirisChunk, EncodeAll(h) + rest, [], 0)
         == DecodeFields(OsirisChunk, EncodeAll(h) + rest, h, 31)
  {
    HeaderLength(h);
    var data := EncodeAll(h) + rest;
    assert OsirisChunk.fields[0..] == ChunkHeader + [OsirisChunk.fields[7]];
    assert FieldsFit(OsirisChunk.fields[0..], h);
    assert data[0..][..31] == EncodeAll(h);
    FieldsEncodingsReadInTurn(OsirisChunk, data, 0, [], h);
    FieldsReads(OsirisChunk, data, 0, [], h, 31);
    assert [] + h == h;
  }

  /** The `messages` of a chunk are read with a copy of the declared reader whose `length` is
      `num_entries`, and no count prefix is read: with `num_entries > 0` the chunk holds that
      many messages and consumes only its 31-byte header; with `num_entries == 0` the copy is in
      exhaust mode, which succeeds only at the end of the input and otherwise makes no
      progress. */
  lemma ChunkMessageCount(h: seq<Value>, rest: seq<byte>)
    requires HeaderFits(h)
    ensures var n := h[NumEntries].num;
      var data := EncodeAll(h) + rest;
      (n > 0 ==> Decode(OsirisChunk, data) == Ok((RecV(OsirisChunk.name, h + [ArrV(Messages(n))]), 31))) &&
      (n == 0 && rest == [] ==> Decode(OsirisChunk, data) == Ok((RecV(OsirisChunk.name, h + [ArrV([])]), 31))) &&
      (n == 0 && rest != [] ==> Decode(OsirisChunk, data) == Err(NoProgress))
  {
    var data := EncodeAll(h) + rest;
    HeaderReadBack(h, rest);
    assert Fits(U16, h[1]);
    var n := h[1].num;
    assert data[31..] == rest;
    var reader := ArrayReader(Message, false, n);
    assert ReadField(OsirisChunk.fields[7], h, data[31..]) == ReadArray(reader, rest);
    if n > 0 {
      CountedMessages(n, rest, []);
      assert [] + Messages(n) == Messages(n);
      assert ReadArray(reader, rest) == Ok((ArrV(Messages(n)), 0));
    } else if rest == [] {
      assert ReadArray(reader, rest) == Ok((ArrV([]), 0));
    } else {
      assert Decode(Message, rest[0..]) == Ok((RecV(Message.name, []), 0));
      assert ReadArray(reader, rest) == Err(NoProgress);
    }
  }

  /** The chunk as `bytes` writes it: the header, then the `Int32` count every `Array` writes
      (`Message`s themselves write nothing). */
  lemma ChunkEncoding(h: seq<Value>, n: nat)
    requires HeaderFits(h) && n <= Int32.Max()
    ensures Encodable(RecV(OsirisChunk.name, h + [ArrV(Messages(n))]))
    ensures Encode(RecV(OsirisChunk.name, h + [ArrV(Messages(n))])) == EncodeAll(h) + PackInt(Int32, n)
  {
    var vs := h + [ArrV(Messages(n))];
    MessagesEncodeEmpty(n);
    assert Encodable(ArrV(Messages(n)));
    assert forall i | 0 <= i < 7 :: Encodable(h[i]);
    EncodeAllSnoc(vs, 7);
    assert vs[..8] == vs && vs[..7] == h;
  }

  /** A chunk does not survive `bytes` then `from_bytes`: with `num_entries > 0` messages the
      read stops 4 bytes short, before the count that `bytes` wrote; with none, those 4 bytes
      are read in exhaust mode as messages that consume nothing, and the read never returns
      (`NoProgress` here). */
  lemma ChunkDoesNotRoundTrip(h: seq<Value>)
    requires HeaderFits(h)
    ensures var n := h[NumEntries].num;
      var c := RecV(OsirisChunk.name, h + [ArrV(Messages(n))]);
      Encodable(c) && |Encode(c)| == 35 &&
      (n > 0 ==> Decode(OsirisChunk, Encode(c)) == Ok((c, 31))) &&
      (n == 0 ==> Decode(OsirisChunk, Encode(c)) == Err(NoProgress))
  {
    assert Fits(U16, h[1]);
    var n := h[1].num;
    ChunkEncoding(h, n);
    HeaderLength(h);
    ChunkMessageCount(h, PackInt(Int32, n));
  }
}
