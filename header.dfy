/**
 * Header framing: the session key's shape and encoding, and the wire layout
 * `[u32 little-endian length][header body]` that precedes the chunk stream.
 */
module HeaderFraming {
  import opened Wrappers
  import opened Common
  import opened ByteIo
  import opened Messages

  const IV_SIZE: nat := 8
  const KEY_SIZE: nat := 64
  const PREFIX_SIZE: nat := 4

  // ----- little-endian u32 (byteorder's `write_u32` / `read_u32`) -----

  function LeU32(x: u32): (b: Bytes)
    ensures |b| == PREFIX_SIZE
  {
    [x % 256, (x / 256) % 256, (x / 65536) % 256, x / 16777216]
  }

  /** `read_u32`: the four bytes are the little-endian encoding of the value read. */
  function ReadLeU32(b: Bytes): (x: u32)
    requires |b| == PREFIX_SIZE
    ensures LeU32(x) == b
  {
    var b0, b1, b2, b3 := b[0] as int, b[1] as int, b[2] as int, b[3] as int;
    var v := b0 + 256 * b1 + 65536 * b2 + 16777216 * b3;
    DivUnique(v, 256, b1 + 256 * b2 + 65536 * b3, b0);
    DivUnique(b1 + 256 * b2 + 65536 * b3, 256, b2 + 256 * b3, b1);
    DivUnique(v, 65536, b2 + 256 * b3, b0 + 256 * b1);
    DivUnique(b2 + 256 * b3, 256, b3, b2);
    DivUnique(v, 16777216, b3, b0 + 256 * b1 + 65536 * b2);
    v
  }

  lemma LeU32RoundTrip(x: u32)
    ensures ReadLeU32(LeU32(x)) == x
  {
    var b := LeU32(x);
    assert x == b[0] as int + 256 * (x / 256);
    assert x / 256 == b[1] as int + 256 * (x / 65536);
    assert x / 65536 == b[2] as int + 256 * b[3] as int;
  }

  // ----- the length prefix -----

  /**
   * `encode_length_delimited` as written: the prefix holds `len as u32`, so
   * a body of 2^32 bytes or more gets a truncated length.
   */
  function FrameAsWritten(body: Bytes): (f: Bytes)
    ensures |f| == PREFIX_SIZE + |body| && f[PREFIX_SIZE..] == body
    ensures ReadLeU32(f[..PREFIX_SIZE]) == |body| % U32_LIMIT
  {
    LeU32RoundTrip(|body| % U32_LIMIT);
    assert (LeU32(|body| % U32_LIMIT) + body)[..PREFIX_SIZE] == LeU32(|body| % U32_LIMIT);
    LeU32(|body| % U32_LIMIT) + body
  }

  /** The framing the prefix is meant to give: bodies whose length a u32 cannot hold are refused. */
  function Frame(body: Bytes): (r: Result<Bytes, Error>)
    ensures r.Ok? <==> |body| < U32_LIMIT
    ensures r.Ok? ==> |r.value| == PREFIX_SIZE + |body| && r.value[PREFIX_SIZE..] == body
    ensures r.Ok? ==> ReadLeU32(r.value[..PREFIX_SIZE]) == |body|
  {
    if |body| < U32_LIMIT then
      LeU32RoundTrip(|body|);
      assert (LeU32(|body|) + body)[..PREFIX_SIZE] == LeU32(|body|);
      Ok(LeU32(|body|) + body)
    else
      Err(HeaderTooLarge)
  }

  /**
   * `decode_length_delimited` on a byte string: the body the prefix
   * announces and the unread rest, or `UnexpectedEof` when the prefix or
   * the body is cut short.
   */
  function Unframe(s: Bytes): (r: Result<(Bytes, Bytes), Error>)
    ensures r.Ok? ==> PREFIX_SIZE <= |s| && |r.value.0| == ReadLeU32(s[..PREFIX_SIZE])
    ensures r.Ok? ==> s == s[..PREFIX_SIZE] + r.value.0 + r.value.1
    ensures r.Err? <==> |s| < PREFIX_SIZE || |s| - PREFIX_SIZE < ReadLeU32(s[..PREFIX_SIZE])
    ensures r.Err? ==> r.error == Io(UnexpectedEof)
  {
    if |s| < PREFIX_SIZE then
      Err(Io(UnexpectedEof))
    else
      var len := ReadLeU32(s[..PREFIX_SIZE]);
      if |s| - PREFIX_SIZE < len then
        Err(Io(UnexpectedEof))
      else
        assert s == s[..PREFIX_SIZE] + s[PREFIX_SIZE..PREFIX_SIZE + len] + s[PREFIX_SIZE + len..];
        Ok((s[PREFIX_SIZE..PREFIX_SIZE + len], s[PREFIX_SIZE + len..]))
  }

  /** Decoding a framed body consumes exactly the frame and leaves what follows untouched. */
  lemma UnframeFrame(body: Bytes, rest: Bytes)
    requires Frame(body).Ok?
    ensures Unframe(Frame(body).value + rest) == Ok((body, rest))
  {
    var f := Frame(body).value;
    var s := f + rest;
    assert s[..PREFIX_SIZE] == f[..PREFIX_SIZE];
    assert s[PREFIX_SIZE..PREFIX_SIZE + |body|] == body;
    assert s[PREFIX_SIZE + |body|..] == rest;
  }

  /**
   * With the truncating prefix the round trip breaks for a body of 2^32
   * bytes or more: only the first |body| mod 2^32 bytes are taken as the
   * body and the rest of it is left in the stream for the chunk decoder.
   */
  lemma FrameAsWrittenLosesBody(body: Bytes, rest: Bytes)
    requires |body| >= U32_LIMIT
    ensures var cut := |body| % U32_LIMIT;
      Unframe(FrameAsWritten(body) + rest) == Ok((body[..cut], body[cut..] + rest))
    ensures Unframe(FrameAsWritten(body) + rest) != Ok((body, rest))
  {
    var cut := |body| % U32_LIMIT;
    var s := FrameAsWritten(body) + rest;
    assert s[..PREFIX_SIZE] == LeU32(cut);
    LeU32RoundTrip(cut);
    assert s[PREFIX_SIZE..PREFIX_SIZE + cut] == body[..cut];
    assert s[PREFIX_SIZE + cut..] == body[cut..] + rest;
  }

  // ----- Header::encode_length_delimited / decode_length_delimited -----

  /**
   * `Header::encode_length_delimited` with the corrected framing: refused
   * exactly when the encoded body is too long for the prefix, otherwise a
   * frame that announces exactly the encoded header.
   */
  function EncodeLengthDelimited(pb: Protobuf, h: Header): (r: Result<Bytes, Error>)
    ensures r.Ok? <==> |EncodeHeader(pb, h)| < U32_LIMIT
    ensures r.Err? ==> r == Err(HeaderTooLarge)
    ensures r.Ok? ==> Unframe(r.value) == Ok((EncodeHeader(pb, h), []))
  {
    var f := Frame(EncodeHeader(pb, h));
    if f.Ok? then
      UnframeFrame(EncodeHeader(pb, h), []);
      assert f.value + [] == f.value;
      f
    else
      f
  }

  /**
   * The header at the front of `s` and the bytes after its frame: the body
   * is the number of bytes the prefix announces, a cut-short frame is
   * `UnexpectedEof`.
   */
  function DecodeFramed(pb: Protobuf, s: Bytes): (r: Result<(Header, Bytes), Error>)
    ensures r.Ok? ==>
      && PREFIX_SIZE <= |s| && PREFIX_SIZE + ReadLeU32(s[..PREFIX_SIZE]) <= |s|
      && var len := ReadLeU32(s[..PREFIX_SIZE]);
      && DecodeHeader(pb, s[PREFIX_SIZE..PREFIX_SIZE + len]) == Ok(r.value.0)
      && r.value.1 == s[PREFIX_SIZE + len..]
    ensures Unframe(s).Err? ==> r == Err(Io(UnexpectedEof))
  {
    match Unframe(s)
    case Err(e) => Err(e)
    case Ok((body, rest)) =>
      match DecodeHeader(pb, body)
      case Err(e) => Err(e)
      case Ok(h) => Ok((h, rest))
  }

  /** Header round trip: what follows the frame is left for the chunk decoder. */
  lemma HeaderRoundTrip(pb: Protobuf, h: Header, rest: Bytes)
    requires EncodeLengthDelimited(pb, h).Ok?
    ensures RoundTrips(pb) ==> DecodeFramed(pb, EncodeLengthDelimited(pb, h).value + rest) == Ok((h, rest))
  {
    UnframeFrame(EncodeHeader(pb, h), rest);
  }

  /**
   * `Header::decode_length_delimited` on a stream: reads the prefix, then
   * exactly the announced number of bytes, then decodes the body. Unless the
   * source faults, it agrees with `DecodeFramed` and consumes exactly the
   * frame.
   */
  method DecodeLengthDelimited(pb: Protobuf, input: Reader) returns (r: Result<Header, Error>)
    requires input.Valid()
    modifies input
    ensures input.Valid() && IsSuffix(input.script, old(input.script))
    ensures var spec := DecodeFramed(pb, old(input.Remaining()));
      || (r.Ok? && spec == Ok((r.value, input.Remaining())))
      || (r.Err? && spec.Err? && r.error == spec.error)
      || (r.Err? && !NoFaults(old(input.script)))
    ensures r.Ok? ==> DecodeFramed(pb, old(input.Remaining())) == Ok((r.value, input.Remaining()))
  {
    ghost var s := input.Remaining();
    ghost var s0 := input.script;
    var prefix := ReadExact(input, PREFIX_SIZE);
    if prefix.Err? {
      return Err(Io(prefix.error));
    }
    var len := ReadLeU32(prefix.value);
    ghost var s1 := input.script;
    var body := ReadExact(input, len);
    if body.Err? {
      if NoFaults(s0) {
        NoFaultsSuffix(s1, s0);
      }
      return Err(Io(body.error));
    }
    assert s[..PREFIX_SIZE] == prefix.value;
    assert body.value == s[PREFIX_SIZE..PREFIX_SIZE + len];
    assert input.Remaining() == s[PREFIX_SIZE + len..];
    var h := DecodeHeader(pb, body.value);
    if h.Err? {
      return Err(h.error);
    }
    r := Ok(h.value);
  }

  // ----- Aes256Siv::new and Aes256Siv::encode -----

  /** The entropy `openssl::rand::rand_bytes` draws from: it serves requests from the front of a pool. */
  class Rng {
    var pool: Bytes

    constructor (pool: Bytes)
      ensures this.pool == pool
    {
      this.pool := pool;
    }

    /** `rand_bytes`: fill `buf` with fresh random bytes, or fail. */
    method RandBytes(buf: array<byte>) returns (r: Result<(), Error>)
      modifies this, buf
      ensures r.Ok? <==> buf.Length <= |old(pool)|
      ensures r.Ok? ==> buf[..] == old(pool)[..buf.Length] && pool == old(pool)[buf.Length..]
      ensures r.Err? ==> r == Err(RandFailure) && pool == old(pool) && buf[..] == old(buf[..])
    {
      if |pool| < buf.Length {
        return Err(RandFailure);
      }
      forall i | 0 <= i < buf.Length {
        buf[i] := pool[i];
      }
      pool := pool[buf.Length..];
      r := Ok(());
    }
  }

  /** The session key made from the next IV_SIZE + KEY_SIZE random bytes: IV first, then key. */
  function SessionKeyFrom(random: Bytes): (k: Aes256Siv)
    requires IV_SIZE + KEY_SIZE <= |random|
    ensures |k.iv| == IV_SIZE && |k.key| == KEY_SIZE
    ensures k.iv + k.key == random[..IV_SIZE + KEY_SIZE]
  {
    assert random[..IV_SIZE + KEY_SIZE] == random[..IV_SIZE] + random[IV_SIZE..IV_SIZE + KEY_SIZE];
    Aes256Siv(random[..IV_SIZE], random[IV_SIZE..IV_SIZE + KEY_SIZE])
  }

  /** `Aes256Siv::new`: an 8-byte IV and a 64-byte key, drawn in that order. */
  method NewAes256Siv(rng: Rng) returns (r: Result<Aes256Siv, Error>)
    modifies rng
    ensures r == if IV_SIZE + KEY_SIZE <= |old(rng.pool)| then Ok(SessionKeyFrom(old(rng.pool))) else Err(RandFailure)
    ensures r.Ok? ==> rng.pool == old(rng.pool)[IV_SIZE + KEY_SIZE..]
  {
    ghost var pool := rng.pool;
    var iv := new byte[IV_SIZE];
    var key := new byte[KEY_SIZE];
    var filled := rng.RandBytes(iv);
    if filled.Err? {
      return Err(RandFailure);
    }
    filled := rng.RandBytes(key);
    if filled.Err? {
      return Err(RandFailure);
    }
    assert key[..] == pool[IV_SIZE..IV_SIZE + KEY_SIZE];
    r := Ok(Aes256Siv(iv[..], key[..]));
  }

  /** `Aes256Siv::encode`: the key wrapped as `Encryption { key: Some(Key::Aes256Siv(k)) }`, which `Encryption::decode` recovers. */
  function EncodeAes256Siv(pb: Protobuf, k: Aes256Siv): (e: Bytes)
    ensures RoundTrips(pb) ==> DecodeEncryption(pb, e) == Ok(Encryption(Some(Aes256SivKey(k))))
  {
    EncodeEncryption(pb, Encryption(Some(Aes256SivKey(k))))
  }
}
