/**
 * The protobuf messages of the wire format (generated by prost from the
 * crate's schema) and the prost encoder and decoder, which are treated as
 * an abstract codec that round-trips.
 */
module Messages {
  import opened Wrappers
  import opened Common

  /** The session key: a 64-byte AES-SIV key and an 8-byte STREAM nonce prefix. */
  datatype Aes256Siv = Aes256Siv(iv: Bytes, key: Bytes)

  /** The `oneof key` of `Encryption`; a field prost does not know decodes to `None`. */
  datatype Key = Aes256SivKey(aes256Siv: Aes256Siv)

  /** The serialized session key that every envelope wraps. */
  datatype Encryption = Encryption(key: Option<Key>)

  /** The header that precedes the chunk stream. */
  datatype Header = Header(encryptedKeys: seq<Bytes>, chunkSize: u32)

  /** prost's `Message::encode` (into a growable vector, so it never fails) and `Message::decode`. */
  datatype Protobuf = Protobuf(
    encodeHeader: Header -> Bytes,
    decodeHeader: Bytes -> Result<Header, Error>,
    encodeEncryption: Encryption -> Bytes,
    decodeEncryption: Bytes -> Result<Encryption, Error>)

  function EncodeHeader(pb: Protobuf, h: Header): Bytes {
    pb.encodeHeader(h)
  }

  function DecodeHeader(pb: Protobuf, body: Bytes): Result<Header, Error> {
    pb.decodeHeader(body)
  }

  function EncodeEncryption(pb: Protobuf, e: Encryption): Bytes {
    pb.encodeEncryption(e)
  }

  function DecodeEncryption(pb: Protobuf, body: Bytes): Result<Encryption, Error> {
    pb.decodeEncryption(body)
  }

  /** The one property of the generated codec the core relies on: decoding undoes encoding. */
  ghost predicate RoundTrips(pb: Protobuf) {
    && (forall h :: DecodeHeader(pb, EncodeHeader(pb, h)) == Ok(h))
    && (forall e :: DecodeEncryption(pb, EncodeEncryption(pb, e)) == Ok(e))
  }
}
