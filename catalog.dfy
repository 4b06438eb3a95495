/** The command records of the stream protocol as schema constants, in the order the client
    declares them, with what the schemas imply: which records read back what they write, which
    cannot be read at all, and how a chunk's message count is taken from `num_entries`. */
module Catalog {
  import opened Wire
  import opened Ints
  import opened Schema
  import opened Codec

  const I8 := IntTy(Int8)
  const I32 := IntTy(Int32)
  const U8 := IntTy(UInt8)
  const U16 := IntTy(UInt16)
  const U32 := IntTy(UInt32)
  const U64 := IntTy(UInt64)

  /** A field read by its declared reader. */
  function F(name: string, ty: Ty): Field {
    Field(name, ty, Declared)
  }

  /** `ArrayBytesReader(elem)`: the defaults are `length_prefix=True` and `length=0`. */
  function Prefixed(elem: Ty): Ty {
    ArrTy(ArrayReader(elem, true, 0))
  }

  /** A pair of strings, the shape of every key/value property record. */
  function KeyValue(name: string): Ty {
    RecTy(name, [F("key", StrTy), F("value", StrTy)])
  }

  const DeclarePublisherRequest := RecTy("DeclarePublisherRequest", [
    F("key", U16), F("version", U16), F("correlation_id", U32), F("publisher_id", U8),
    F("publisher_references", Prefixed(StrTy)), F("stream", StrTy)])

  const DeclarePublisherResponse := RecTy("DeclarePublisherResponse", [
    F("key", U16), F("version", U16), F("correlation_id", U32), F("response_code", U16),
    F("publisher_id", U8)])

  const PublishedMessage := RecTy("Publish.PublishedMessage", [
    F("publishing_id", U64), F("message", BlobTy)])

  const Publish := RecTy("Publish", [
    F("key", U16), F("version", U16), F("publisher_id", U8),
    F("published_messages", Prefixed(PublishedMessage))])

  const PublishConfirm := RecTy("PublishConfirm", [
    F("key", U16), F("version", U16), F("publisher_id", U8), F("publishing_ids", Prefixed(U64))])

  const PublishingError := RecTy("PublishError.PublishingError", [
    F("publishing_id", U64), F("code", U16)])

  const PublishError := RecTy("PublishError", [
    F("key", U16), F("version", U16), F("publisher_id", U8), F("publishing_error", PublishingError)])

  const QueryPublisherRequest := RecTy("QueryPublisherRequest", [
    F("key", U16), F("version", U16), F("correlation_id", U32), F("publisher_reference", StrTy),
    F("stream", StrTy)])

  const QueryPublisherResponse := RecTy("QueryPublisherResponse", [
    F("key", U16), F("version", U16), F("correlation_id", U32), F("response_code", U16),
    F("sequence", U64)])

  const DeletePublisherRequest := RecTy("DeletePublisherRequest", [
    F("key", U16), F("version", U16), F("correlation_id", U32), F("publisher_id", U8)])

  const DeletePublisherResponse := RecTy("DeletePublisherResponse", [
    F("key", U16), F("version", U16), F("correlation_id", U32), F("response_code", U16)])

  const OffsetSpecification := RecTy("Subscribe.OffsetSpecification", [
    F("offset_type", U16), F("offset", U64)])

  const Subscribe := RecTy("Subscribe", [
    F("key", U16), F("version", U16), F("correlation_id", U32), F("subscription_id", U8),
    F("stream", StrTy), F("offset_specification", OffsetSpecification), F("credit", U16),
    F("properties", Prefixed(KeyValue("Subscribe.Property")))])

  /** `Deliver.OsirisChunk.Message`: a record with no fields. */
  const Message := RecTy("Deliver.OsirisChunk.Message", [])

  /** The position of `num_entries` among the chunk's fields. */
  const NumEntries := 1

  /** The chunk's seven header fields; `messages` follows them. */
  const ChunkHeader := [
    F("magic_version", I8), F("num_entries", U16), F("num_records", U32), F("epoch", U64),
    F("chunk_first_offset", U64), F("chunk_crc", I32), F("data_length", U32)]

  /** `messages` is declared with `ArrayBytesReader(Message, length_prefix=False)`; the
      overridden `get_field_readers` reads it with a copy whose `length` is `items[1]`. */
  const OsirisChunk := RecTy("Deliver.OsirisChunk", ChunkHeader + [
    Field("messages", ArrTy(ArrayReader(Message, false, 0)), CountFromItem(NumEntries))])

  const Deliver := RecTy("Deliver", [
    F("key", U16), F("version", U32), F("subscription_id", U8), F("osiris_chunk", OsirisChunk)])

  const CreditRequest := RecTy("CreditRequest", [
    F("key", U16), F("version", U16), F("subscription_id", U8), F("credit", U16)])

  const CreditResponse := RecTy("CreditResponse", [
    F("key", U16), F("version", U16), F("response_code", U16), F("subscription_id", U8)])

  const StoreOffset := RecTy("StoreOffset", [
    F("key", U16), F("version", U16), F("reference", StrTy), F("stream", StrTy), F("offset", U64)])

  const QueryOffsetRequest := RecTy("QueryOffsetRequest", [
    F("key", U16), F("version", U16), F("correlation_id", U32), F("reference", StrTy),
    F("stream", StrTy)])

  const QueryOffsetResponse := RecTy("QueryOffsetResponse", [
    F("key", U16), F("version", U16), F("correlation_id", U32), F("response_code", U16),
    F("offset", U64)])

  const Unsubscribe := RecTy("Unsubscribe", [
    F("key", U16), F("version", U16), F("correlation_id", U32), F("subscription_id", U8)])

  const Create := RecTy("Create", [
    F("key", U16), F("version", U16), F("correlation_id", U32), F("stream", StrTy),
    F("arguments", Prefixed(KeyValue("Create.Argument")))])

  const Delete := RecTy("Delete", [
    F("key", U16), F("version", U16), F("correlation_id", U32), F("stream", StrTy)])

  const MetadataQuery := RecTy("MetadataQuery", [
    F("key", U16), F("version", U16), F("correlation_id", U32), F("stream", StrTy)])

  const Broker := RecTy("MetadataResponse.Broker", [
    F("reference", U16), F("host", StrTy), F("port", U32)])

  const StreamMetadata := RecTy("MetadataResponse.StreamMetadata", [
    F("stream_name", StrTy), F("response_code", U16), F("leader_reference", U16),
    F("replicas_references", Prefixed(U16))])

  const MetadataResponse := RecTy("MetadataResponse", [
    F("key", U16), F("version", U16), F("correlation_id", U32), F("brokers", Prefixed(Broker)),
    F("stream_metadata", Prefixed(StreamMetadata))])

  const MetadataInfo := RecTy("MetadataUpdate.MetadataInfo", [F("code", U16), F("stream", StrTy)])

  const MetadataUpdate := RecTy("MetadataUpdate", [
    F("key", U16), F("version", U16), F("metadata_info", MetadataInfo)])

  const PeerProperty := KeyValue("PeerProperty")

  const PeerPropertiesRequest := RecTy("PeerPropertiesRequest", [
    F("key", U16), F("version", U16), F("correlation_id", U32),
    F("peer_properties", Prefixed(PeerProperty))])

  const PeerPropertiesResponse := RecTy("PeerPropertiesResponse", [
    F("key", U16), F("version", U16), F("correlation_id", U32), F("response_code", U16),
    F("peer_properties", Prefixed(PeerProperty))])

  const SaslHandshakeRequest := RecTy("SaslHandshakeRequest", [
    F("key", U16), F("version", U16), F("correlation_id", U32)])

  /** Its `correlation_id` is declared `UInt16`, unlike every other record's `UInt32`. */
  const SaslHandshakeResponse := RecTy("SaslHandshakeResponse", [
    F("key", U16), F("version", U16), F("correlation_id", U16), F("response_code", U16),
    F("mechanisms", Prefixed(StrTy))])

  const SaslAuthenticateRequest := RecTy("SaslAuthenticateRequest", [
    F("key", U16), F("version", U16), F("correlation_id", U32), F("mechanism", StrTy),
    F("sasl_opaque_data", BlobTy)])

  const SaslAuthenticateResponse := RecTy("SaslAuthenticateResponse", [
    F("key", U16), F("version", U16), F("correlation_id", U32), F("response_code", U16),
    F("sasl_opaque_data", BlobTy)])

  const TuneFields := [F("key", U16), F("version", U16), F("frame_max", U32), F("heartbeat", U32)]

  const TuneRequest := RecTy("TuneRequest", TuneFields)

  /** A subclass of `TuneRequest` that adds nothing: the same fields. */
  const TuneResponse := RecTy("TuneResponse", TuneFields)

  const OpenRequest := RecTy("OpenRequest", [
    F("key", U16), F("version", U16), F("correlation_id", U32), F("virtual_host", StrTy)])

  const OpenResponse := RecTy("OpenResponse", [
    F("key", U16), F("version", U16), F("correlation_id", U32), F("response_code", U16),
    F("connection_properties", Prefixed(KeyValue("OpenResponse.ConnectionProperty")))])

  const CloseRequest := RecTy("CloseRequest", [
    F("key", U16), F("version", U16), F("correlation_id", U32), F("closing_code", U16),
    F("closing_reason", StrTy)])

  const CloseResponse := RecTy("CloseResponse", [
    F("key", U16), F("version", U16), F("correlation_id", U32), F("response_code", U16)])

  /** The class is spelled `Hearbeat` in the client. */
  const Heartbeat := RecTy("Hearbeat", [F("key", U16), F("version", U16)])
}
