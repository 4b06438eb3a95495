# RabbitMQ stream client wire codec, in Dafny

A model of the declarative wire codec of the RabbitMQ stream protocol client
(`rabbitmq/stream/client/__init__.py`), with proofs of what the code does to bytes:

- **Integers** (`BaseInt`, `Int8` … `UInt64`): big-endian two's-complement or unsigned
  integers of 1, 2, 4 or 8 bytes, written by `struct.pack` and read from the first
  `byte_size` bytes of the input (module `Ints`).
- **`String` and `Bytes`**: a nullable UTF-8 string behind a signed 16-bit length, and a blob
  behind a signed 32-bit length. A blob can only be written, because `Bytes` has no
  `from_bytes` (module `Strings`).
- **Schemas and values**: a field's reader is its class or the `ArrayBytesReader` in its
  metadata; values carry their own class, as Python objects do (module `Schema`).
- **The codec** as functions (module `Codec`):
  - `bytes(x)`, which concatenates the encodings;
  - `from_bytes`, including the three modes of `ArrayBytesReader`: an `Int32` count prefix, a
    count given from outside, or reading until the input is used up;
  - the record walk of `AutoBytes.from_bytes`, whose cursor and `items` accumulator let a later
    field's reader depend on an earlier value.
- **The codec as the source runs it**: loops over an accumulating byte string, an `offset`
  cursor and an `items` list. Each method is proved to compute the function of `Codec`
  (module `Engine`).
- **Round trips** (module `RoundTrip`): `from_bytes(bytes(x)) == (x, len(bytes(x)))` for every
  value that fits its schema, whatever follows it. The same module gives the behaviour of
  each reading mode on other input.
- **Consumed-byte accounting** (module `Accounting`): a successful read returns its items or
  fields read one after another. What it consumed is where the last of them ends.
- **The command catalog** (module `Catalog`): every record class of the client, as schema data.
- **Consequences for particular commands** (module `Commands`):
  - the `PublishConfirm` test;
  - the SASL authentication commands, which can never be read back because they end in
    `Bytes`;
  - the `Deliver` chunk, whose message count is read from `num_entries`.
- **`Frame`** (module `Frames`): a record's encoding after its `UInt32` length, and the
  client's two-phase read of a reply.

Decoding errors are a `Result`:
- `StructError`: `struct.unpack` fails on a short buffer.
- `NoReader`: a `Bytes` value has no reader.
- `BadCountReference`: the chunk's count field is missing.
- `NoProgress`: the exhaust loop would spin forever because an item consumed nothing.

### Where the model follows the code

- A null string is written as `FF FF` but read back as the empty string, not as null.
- Every `Array` count prefix is a signed `Int32`, so a negative count reads as zero items.
- `Array.__bytes__` always writes the `Int32` count, including for the chunk's `messages`,
  which are read without one. A chunk therefore does not round-trip.
- The chunk's message count is `items[1]` (`num_entries`). A count of 0 does not mean "no
  messages": the reader falls into exhaust mode.
- `ArrayBytesReader.length` is an `InitVar` that the constructor does not store, so `copy()` yields a reader with the class default `length` 0.
- An error is the raw failure, not annotated with the field or element where it happened.

## Model

| member | source | states |
|---|---|---|
| Ints.ModulusIsPow256 | rabbitmq/stream/client/__init__.py:47-92 | each format's modulus is 256 to the power of its `byte_size` |
| Ints.PackInt | rabbitmq/stream/client/__init__.py:37-38 | `struct.pack` of an in-range value gives exactly `byte_size` bytes |
| Ints.UnpackInt | rabbitmq/stream/client/__init__.py:44 | `struct.unpack` of a `byte_size` buffer gives a value the format can hold |
| Ints.FromToBigEndian | rabbitmq/stream/client/__init__.py:38 | reading the big-endian digits of `n` gives `n` back |
| Ints.ToFromBigEndian | rabbitmq/stream/client/__init__.py:44 | writing the number a buffer denotes gives that buffer back |
| Ints.UnpackPack | rabbitmq/stream/client/__init__.py:37-44 | unpacking inverts packing for every value the format can hold, signed ones included |
| Ints.PackUnpack | rabbitmq/stream/client/__init__.py:37-44 | packing inverts unpacking on every buffer of `byte_size` bytes |
| Ints.IntFromBytes | rabbitmq/stream/client/__init__.py:40-44 | reading succeeds exactly when at least `byte_size` bytes are given; it then consumes `byte_size` and gives an in-range value |
| Ints.IntFromBytesReadsOnlyWidth | rabbitmq/stream/client/__init__.py:42-44 | the result depends only on the first `byte_size` bytes |
| Ints.IntRoundTrip | rabbitmq/stream/client/__init__.py:37-44 | an encoded in-range value reads back, consuming `byte_size`, whatever follows |
| Ints.IntDecodeEncode | rabbitmq/stream/client/__init__.py:37-44 | a successful read re-encodes to exactly the bytes it consumed |
| Strings.SliceBound | rabbitmq/stream/client/__init__.py:113 | a slice bound is clamped to the input, and a bound inside it is kept |
| Strings.Slice | rabbitmq/stream/client/__init__.py:113 | Python's `data[start:stop]`: both bounds normalised by `SliceBound`, empty when the stop is not past the start |
| Strings.StringLen | rabbitmq/stream/client/__init__.py:127-130 | `String.__len__`: -1 for null, else the payload's byte count; it is the value `String.__bytes__` packs as `Int16`, as `Strings.StringToBytes` states |
| Strings.StringToBytes | rabbitmq/stream/client/__init__.py:119-125 | the first 2 bytes unpack to -1 for null and to the payload length otherwise; the payload (none for null) follows |
| Strings.StringFromBytes | rabbitmq/stream/client/__init__.py:110-117 | fails on fewer than 2 bytes; on success consumes between 2 and all bytes and returns the bytes after the length up to that point |
| Strings.StringRoundTrip | rabbitmq/stream/client/__init__.py:110-125 | a non-null string reads back, consuming 2 plus its length, whatever follows |
| Strings.NullDecodesAsEmpty | rabbitmq/stream/client/__init__.py:110-121 | null is written `FF FF` and read back as the empty string after 2 bytes: null does not round-trip |
| Strings.NegativeLength | rabbitmq/stream/client/__init__.py:111-114 | a negative length succeeds exactly when it is -1 or -2, or when the input is no longer than minus the length; success always gives the empty string after 2 bytes |
| Strings.NonNegativeLength | rabbitmq/stream/client/__init__.py:111-117 | a non-negative length succeeds exactly when that many payload bytes follow, and returns them |
| Strings.BytesToBytes | rabbitmq/stream/client/__init__.py:99-102 | a blob is its length as an `Int32` followed by its bytes |
| Strings.StringExamples | rabbitmq/stream/client/__init__.py:119-125 | `"hi"` is `00 02 68 69`, the empty string `00 00`, null `FF FF` |
| Codec.Encode | rabbitmq/stream/client/__init__.py:186-193 | `bytes(x)` for every value: `struct.pack` for an integer, `String`/`Bytes` with their length prefixes, an `Array` as its `Int32` count then its items, a record as its fields in declared order; its meaning is fixed by `RoundTrip.RoundTrip` |
| Codec.EncodeAll | rabbitmq/stream/client/__init__.py:142-143 | the encodings of a sequence of values concatenated in order, as the appending loops build them (`Codec.EncodeAllSnoc`) |
| Codec.EncodeAllSnoc | rabbitmq/stream/client/__init__.py:142-143 | appending one more value appends its encoding |
| Codec.Decode | rabbitmq/stream/client/__init__.py:201-202 | a reader never claims more bytes than it was given; an integer reader gives its own format and width; a `Bytes` field can never be read |
| Codec.ReadArray | rabbitmq/stream/client/__init__.py:162-180 | prefixed: fails on fewer than 4 bytes, and on success consumes at least 4 and returns max(count, 0) items; given count: returns max(length, 0) items; exhaust mode: consumes the whole input |
| Codec.ReadCounted | rabbitmq/stream/client/__init__.py:170-173 | the counted loop stays inside the input and stops with exactly `count` items (or as many as it already had) |
| Codec.ReadExhaust | rabbitmq/stream/client/__init__.py:175-179 | the exhaust loop succeeds only by consuming the whole input |
| Codec.ReadField | rabbitmq/stream/client/__init__.py:357-363 | a field's reader, including the chunk's count-from-`items[1]` copy, never claims more bytes than it was given |
| Schema.Copy | rabbitmq/stream/client/__init__.py:182-183 | `copy()` keeps the element reader and the prefix flag but yields `length` 0: it passes `self.length` to the constructor, but the constructor does not store the `InitVar` `length`, so `self.length` is the class default 0 |
| Codec.DecodeFields | rabbitmq/stream/client/__init__.py:199-206 | the record walk stays inside the input and builds a record of the schema's class with one value per declared field |
| Engine.ToBytes | rabbitmq/stream/client/__init__.py:186-193 | `bytes(x)` computes the encoding `Codec.Encode` defines |
| Engine.ArrayToBytes | rabbitmq/stream/client/__init__.py:140-144 | the appending loop computes the `Int32` count followed by each item's encoding |
| Engine.RecordToBytes | rabbitmq/stream/client/__init__.py:187-193 | the appending loop computes the concatenation of the field encodings in declared order |
| Engine.FromBytes | rabbitmq/stream/client/__init__.py:201-202 | dispatching `from_bytes` computes `Codec.Decode` |
| Engine.ArrayFromBytes | rabbitmq/stream/client/__init__.py:162-180 | the cursor loops of both modes compute `Codec.ReadArray`, including their failures |
| Engine.RecordFromBytes | rabbitmq/stream/client/__init__.py:195-206 | the field loop, with the chunk's reader copied and given `items[1]` as its length, computes `Codec.DecodeFields` |
| RoundTrip.DecodeEncode | rabbitmq/stream/client/__init__.py:195-206 | a fitting value is read back from any input that starts with its encoding, consuming exactly the encoding |
| RoundTrip.ArrayDecodeEncode | rabbitmq/stream/client/__init__.py:164-173 | a prefixed array reads back its count and its items, consuming 4 plus the item bytes |
| RoundTrip.RecordDecodeEncode | rabbitmq/stream/client/__init__.py:199-206 | a record reads back its fields in declared order, consuming the sum of their bytes |
| RoundTrip.ItemsReadInTurn | rabbitmq/stream/client/__init__.py:170-173 | fitting items are read back one after another from their concatenated encodings |
| RoundTrip.CountedReads | rabbitmq/stream/client/__init__.py:170-173 | the counted loop over items read in turn returns them all and stops where the last ends |
| RoundTrip.ExhaustReads | rabbitmq/stream/client/__init__.py:175-179 | the exhaust loop over non-empty items that end at the end of the input returns them all |
| RoundTrip.FieldsEncodingsReadInTurn | rabbitmq/stream/client/__init__.py:201-204 | fitting fields are read back one after another from their concatenated encodings |
| RoundTrip.FieldsReads | rabbitmq/stream/client/__init__.py:201-204 | the record walk over fields read in turn continues from after the last of them |
| RoundTrip.RoundTrip | tests/test_PublishConfirm.py:11-14 | `from_bytes(bytes(x)) == (x, len(bytes(x)))` for every fitting value, with any bytes after it |
| RoundTrip.ExhaustRoundTrip | rabbitmq/stream/client/__init__.py:174-180 | items whose encodings are non-empty, written without a count, are read back in exhaust mode, which consumes everything |
| RoundTrip.CountedRoundTrip | rabbitmq/stream/client/__init__.py:164-173 | with a count given from outside, exactly that many items are read back and what follows is left alone |
| RoundTrip.NegativeCountPrefix | rabbitmq/stream/client/__init__.py:166-170 | a negative count prefix reads no items and consumes 4 bytes |
| RoundTrip.EmptyArray | rabbitmq/stream/client/__init__.py:140-144 | an empty array is `00 00 00 00` and reads back as empty after 4 bytes |
| RoundTrip.NullStringReadsEmpty | rabbitmq/stream/client/__init__.py:119-121 | a null string field reads back as the empty string after its 2 bytes |
| Accounting.ExhaustInTurn | rabbitmq/stream/client/__init__.py:175-179 | a successful exhaust loop returns what it had, then items read in turn, each of at least one byte, up to the end of the input |
| Accounting.CountedInTurn | rabbitmq/stream/client/__init__.py:170-173 | a successful counted loop returns what it had, then items read in turn, ending where the loop stopped |
| Accounting.FieldsInTurn | rabbitmq/stream/client/__init__.py:199-206 | a successful record walk returns the fields it had, then fields read in turn, ending at the consumed count |
| Accounting.PrefixedArrayInTurn | rabbitmq/stream/client/__init__.py:164-173 | a successful prefixed read returns items read in turn from byte 4, consuming up to where the last ends |
| Accounting.ExhaustArrayInTurn | rabbitmq/stream/client/__init__.py:174-180 | a successful exhaust read returns non-empty items read in turn covering the whole input |
| Accounting.RecordInTurn | rabbitmq/stream/client/__init__.py:195-206 | a successful record read returns its fields read in turn, consuming up to where the last ends |
| Commands.ConfirmOneFits | tests/test_PublishConfirm.py:5-10 | the test's `PublishConfirm` fits its schema |
| Commands.ConfirmOneBytes | tests/test_PublishConfirm.py:5-11 | the test's record encodes to `00 01 00 01 01 00 00 00 01` followed by the `UInt64` 1 |
| Commands.PublishConfirmTest | tests/test_PublishConfirm.py:4-14 | the test's record is 17 bytes, and `from_bytes` gives it back having consumed all 17 |
| Commands.BlobFieldFails | rabbitmq/stream/client/__init__.py:95-102 | a record read fails whenever a `Bytes` field is still ahead, whatever the input |
| Commands.SaslAuthenticateNeverDecodes | rabbitmq/stream/client/__init__.py:534-548 | neither SASL authentication command can be read from any input |
| Commands.MessagesEncodeEmpty | rabbitmq/stream/client/__init__.py:343-344 | empty `Message`s encode to nothing |
| Commands.CountedMessages | rabbitmq/stream/client/__init__.py:170-173 | a count of `Message`s is read from any input without consuming anything |
| Commands.HeaderLength | rabbitmq/stream/client/__init__.py:346-352 | the seven chunk header fields take 31 bytes |
| Commands.HeaderReadBack | rabbitmq/stream/client/__init__.py:346-352 | after an encoded header the chunk walk stands at `messages`, having read the header back |
| Commands.ChunkMessageCount | rabbitmq/stream/client/__init__.py:357-363 | `messages` is read with a copy whose length is `num_entries`: a positive count gives that many messages after 31 bytes; zero reads in exhaust mode, which succeeds only at the end of the input and otherwise never returns (`NoProgress` here) |
| Commands.ChunkEncoding | rabbitmq/stream/client/__init__.py:140-144 | a chunk is written as its header followed by the `Int32` count of its messages |
| Commands.ChunkDoesNotRoundTrip | rabbitmq/stream/client/__init__.py:353-363 | a written chunk is 35 bytes; reading it stops 4 bytes short when it has messages and never returns (`NoProgress` here) when it has none |
| Frames.EncodeFrame | rabbitmq/stream/client/__init__.py:615-618 | a frame is the record's encoding after its length as a `UInt32`, which does not count itself |
| Frames.FrameReadBack | tests/test_Client.py:32-36 | the client's two-phase read gets the size from the first 4 bytes, then the framed value from exactly that many bytes |
| Frames.PublishConfirmFrame | rabbitmq/stream/client/__init__.py:615-618 | the test's `PublishConfirm` travels as a 21-byte frame starting `00 00 00 11` |

## Left out

- Sockets, `send` and `recv`: only the shape of the client's read of a reply is kept, as `Frames.FrameReadBack`.
- Text is its UTF-8 bytes: `str.encode`/`decode` and invalid UTF-8 are not modelled.
- Python reflection is replaced by explicit schema data: `dataclasses.fields`, `field.metadata["reader"]`, `ClassVar` format strings and the `BytesReader` protocol.
- `Frame.from_bytes`: the field type is a type variable, so the code defines no decoder for it. `Frames.FrameReadBack` reads the framed record with its own schema.
- `Bytes` has no `from_bytes`, so reading it is the error `NoReader`. A record with a `Bytes` field (`SaslAuthenticateRequest`, `SaslAuthenticateResponse`, `Publish.PublishedMessage`) is only written. `Publish` reads back only when its count prefix is 0 or negative, because only then does the item loop never run.
- `struct.pack` overflow errors are preconditions: integers must be in range, strings at most 0x7FFF bytes, blobs and arrays at most 0x7FFF_FFFF, frames at most 0xFFFF_FFFF bytes.
- `Array.__iter__`, `__getitem__` and `__len__`, and `String.__str__`, are list and string access, not codec logic.
- Response-key masking and dispatch on `key` do not occur in this code.
- Codec.ReadExhaust: the source loops forever when an item consumes no bytes. The model returns `NoProgress` instead, so that the function is total.
- Engine.RecordFromBytes: the source assigns `length` on the copied reader. The model updates a fresh copy as a value; no shared reader exists to alias.
- RoundTrip.RoundTrip: proved only for values that fit their schema. This excludes:
  - null strings, proved separately not to round-trip;
  - arrays read without a prefix, covered by `RoundTrip.ExhaustRoundTrip` and `RoundTrip.CountedRoundTrip`;
  - values holding a `Bytes`, which cannot be read.
- RoundTrip.DecodeEncode: the same restriction as `RoundTrip.RoundTrip`.
- Commands.ChunkMessageCount: stated for a header followed by arbitrary bytes, not for a whole `Deliver` command around the chunk.
