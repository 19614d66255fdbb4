/**
 * `run_encrypt` and `run_decrypt`: the sequencing of session-key creation,
 * envelope collection, header framing and the chunk stream, and the
 * end-to-end property that decrypting an encrypted file gives back its
 * plaintext.
 */
module Orchestration {
  import opened Wrappers
  import opened Common
  import opened ByteIo
  import opened Messages
  import opened HeaderFraming
  import opened StreamSpec
  import opened SymmetricStream
  import opened Envelope

  // ----- envelope collection -----

  /** One fetched key: `to_public_key` (whose outcome is given) and then `encrypt` of the encoded session key. */
  function Wrap(r: Rsa, parsed: Result<PublicKey, Error>, keyEncoded: Bytes): (w: Result<Bytes, Error>)
    ensures parsed.Err? ==> w == Err(parsed.error)
    ensures w.Ok? ==> parsed.Ok? && parsed.value.data.RsaData?
  {
    match parsed
    case Err(e) => Err(e)
    case Ok(pk) => Encrypt(r, pk, keyEncoded)
  }

  /** The `map` / `filter_map(ok)` / `collect` pipeline: the successful wraps, in key order. */
  function WrapAll(r: Rsa, keys: seq<Result<PublicKey, Error>>, keyEncoded: Bytes): (envelopes: seq<Bytes>)
    ensures |envelopes| <= |keys|
    decreases |keys|
  {
    if keys == [] then []
    else
      (match Wrap(r, keys[0], keyEncoded)
       case Ok(e) => [e]
       case Err(_) => [])
      + WrapAll(r, keys[1..], keyEncoded)
  }

  /** Collecting two runs of keys collects each in turn: the order of the keys is kept. */
  lemma {:induction false} WrapAllAppend(r: Rsa, a: seq<Result<PublicKey, Error>>, b: seq<Result<PublicKey, Error>>, keyEncoded: Bytes)
    ensures WrapAll(r, a + b, keyEncoded) == WrapAll(r, a, keyEncoded) + WrapAll(r, b, keyEncoded)
    decreases |a|
  {
    if a == [] {
      assert a + b == b;
    } else {
      assert (a + b)[0] == a[0];
      assert (a + b)[1..] == a[1..] + b;
      WrapAllAppend(r, a[1..], b, keyEncoded);
    }
  }

  /** A single key contributes its envelope when the wrap succeeds and nothing when it fails. */
  lemma WrapAllSingle(r: Rsa, k: Result<PublicKey, Error>, keyEncoded: Bytes)
    ensures WrapAll(r, [k], keyEncoded) == if Wrap(r, k, keyEncoded).Ok? then [Wrap(r, k, keyEncoded).value] else []
  {
    assert [k][1..] == [];
  }

  /** There is no envelope exactly when every key fails to wrap. */
  lemma {:induction false} WrapAllEmpty(r: Rsa, keys: seq<Result<PublicKey, Error>>, keyEncoded: Bytes)
    ensures WrapAll(r, keys, keyEncoded) == [] <==> forall i :: 0 <= i < |keys| ==> Wrap(r, keys[i], keyEncoded).Err?
    decreases |keys|
  {
    if keys != [] {
      WrapAllEmpty(r, keys[1..], keyEncoded);
      if forall i :: 0 <= i < |keys[1..]| ==> Wrap(r, keys[1..][i], keyEncoded).Err? {
        forall i | 0 <= i < |keys| && i > 0 ensures Wrap(r, keys[i], keyEncoded).Err? {
          assert keys[i] == keys[1..][i - 1];
        }
      } else {
        var i :| 0 <= i < |keys[1..]| && Wrap(r, keys[1..][i], keyEncoded).Ok?;
        assert keys[1..][i] == keys[i + 1];
      }
    }
  }

  /** Every successful wrap is among the envelopes, and every envelope is some key's successful wrap. */
  lemma {:induction false} WrapAllMembers(r: Rsa, keys: seq<Result<PublicKey, Error>>, keyEncoded: Bytes, e: Bytes)
    ensures e in WrapAll(r, keys, keyEncoded) <==> exists i :: 0 <= i < |keys| && Wrap(r, keys[i], keyEncoded) == Ok(e)
    decreases |keys|
  {
    if keys != [] {
      WrapAllMembers(r, keys[1..], keyEncoded, e);
      if exists i :: 0 <= i < |keys[1..]| && Wrap(r, keys[1..][i], keyEncoded) == Ok(e) {
        var i :| 0 <= i < |keys[1..]| && Wrap(r, keys[1..][i], keyEncoded) == Ok(e);
        assert keys[1..][i] == keys[i + 1];
      }
      if exists i :: 0 <= i < |keys| && Wrap(r, keys[i], keyEncoded) == Ok(e) {
        var i :| 0 <= i < |keys| && Wrap(r, keys[i], keyEncoded) == Ok(e);
        if i > 0 {
          assert keys[i] == keys[1..][i - 1];
        }
      }
    }
  }

  // ----- run_encrypt -----

  /** The header `run_encrypt` frames: the envelopes and `chunk_size == MESSAGE_SIZE`, refused when there is no envelope. */
  function HeaderFor(r: Rsa, pb: Protobuf, key: Aes256Siv, keys: seq<Result<PublicKey, Error>>): (res: Result<Bytes, Error>)
    ensures WrapAll(r, keys, EncodeAes256Siv(pb, key)) == [] ==> res == Err(NoSupportedKey)
    ensures WrapAll(r, keys, EncodeAes256Siv(pb, key)) != [] ==>
      res == EncodeLengthDelimited(pb, Header(WrapAll(r, keys, EncodeAes256Siv(pb, key)), MESSAGE_SIZE))
  {
    var envelopes := WrapAll(r, keys, EncodeAes256Siv(pb, key));
    if |envelopes| == 0 then Err(NoSupportedKey)
    else EncodeLengthDelimited(pb, Header(envelopes, MESSAGE_SIZE))
  }

  /**
   * The whole encrypted file: the framed header, then the sealed stream with
   * MESSAGE_SIZE pieces. Its front decodes to the envelopes and the chunk
   * size, and what follows the header is exactly the sealed stream.
   */
  function EncryptedFile(aead: Aead, r: Rsa, pb: Protobuf, key: Aes256Siv, keys: seq<Result<PublicKey, Error>>, plain: Bytes)
    : (file: Result<Bytes, Error>)
    ensures WrapAll(r, keys, EncodeAes256Siv(pb, key)) == [] ==> file == Err(NoSupportedKey)
    ensures file.Ok? <==> HeaderFor(r, pb, key, keys).Ok?
    ensures RoundTrips(pb) && file.Ok? ==>
      DecodeFramed(pb, file.value)
        == Ok((Header(WrapAll(r, keys, EncodeAes256Siv(pb, key)), MESSAGE_SIZE), SealStream(aead, key, 0, plain, MESSAGE_SIZE)))
  {
    match HeaderFor(r, pb, key, keys)
    case Err(e) => Err(e)
    case Ok(header) =>
      HeaderRoundTrip(pb, Header(WrapAll(r, keys, EncodeAes256Siv(pb, key)), MESSAGE_SIZE), SealStream(aead, key, 0, plain, MESSAGE_SIZE));
      Ok(header + SealStream(aead, key, 0, plain, MESSAGE_SIZE))
  }

  /**
   * What `run_encrypt` settles before it writes anything: the session key
   * (from the next random bytes) and the framed header, or the error that
   * stops it (random source, key fetch, no supported key; with the
   * corrected framing also a header too large for its prefix).
   */
  function EncryptGate(r: Rsa, pb: Protobuf, pool: Bytes, fetched: Result<seq<Result<PublicKey, Error>>, Error>)
    : (g: Result<(Aes256Siv, Bytes), Error>)
    ensures |pool| < IV_SIZE + KEY_SIZE ==> g == Err(RandFailure)
    ensures IV_SIZE + KEY_SIZE <= |pool| && fetched.Err? ==> g == Err(fetched.error)
    ensures IV_SIZE + KEY_SIZE <= |pool| && fetched.Ok? && WrapAll(r, fetched.value, EncodeAes256Siv(pb, SessionKeyFrom(pool))) == [] ==>
      g == Err(NoSupportedKey)
    ensures g.Ok? ==>
      && IV_SIZE + KEY_SIZE <= |pool| && fetched.Ok? && g.value.0 == SessionKeyFrom(pool)
      && WrapAll(r, fetched.value, EncodeAes256Siv(pb, g.value.0)) != []
      && HeaderFor(r, pb, g.value.0, fetched.value) == Ok(g.value.1)
  {
    if |pool| < IV_SIZE + KEY_SIZE then Err(RandFailure)
    else
      var key := SessionKeyFrom(pool);
      match fetched
      case Err(e) => Err(e)
      case Ok(keys) =>
        match HeaderFor(r, pb, key, keys)
        case Err(e) => Err(e)
        case Ok(header) => Ok((key, header))
  }

  /**
   * `run_encrypt`: create the session key, wrap it for every fetched key,
   * refuse when no envelope results (before touching input or output), then
   * write the framed header and the sealed stream. `fetched` stands for the
   * outcome of the GitHub request and of `to_public_key` on each key.
   */
  method RunEncrypt(aead: Aead, r: Rsa, pb: Protobuf, rng: Rng, fetched: Result<seq<Result<PublicKey, Error>>, Error>,
                    input: Reader, output: Writer)
    returns (res: Result<(), Error>)
    requires SealAddsTag(aead) && input.Valid()
    modifies rng, input, output
    ensures input.Valid()
    ensures var g := EncryptGate(r, pb, old(rng.pool), fetched);
      g.Err? ==>
        && res == Err(g.error) && output.written == old(output.written)
        && input.pos == old(input.pos) && input.script == old(input.script)
    ensures var g := EncryptGate(r, pb, old(rng.pool), fetched);
      g.Ok? && res.Ok? ==>
        output.written == old(output.written) + EncryptedFile(aead, r, pb, g.value.0, fetched.value, old(input.Remaining())).value
    ensures var g := EncryptGate(r, pb, old(rng.pool), fetched);
      g.Ok? && NoFaults(old(input.script)) ==> res.Ok?
    ensures var g := EncryptGate(r, pb, old(rng.pool), fetched);
      g.Ok? && res.Err? ==>
        && res.error.Io? && !NoFaults(old(input.script))
        && IsPrefix(old(output.written) + g.value.1, output.written)
  {
    ghost var g := EncryptGate(r, pb, rng.pool, fetched);
    ghost var plain := input.Remaining();
    var key := NewAes256Siv(rng);
    if key.Err? {
      return Err(key.error);
    }
    var keyEncoded := EncodeAes256Siv(pb, key.value);
    if fetched.Err? {
      return Err(fetched.error);
    }
    var encryptedKeys := WrapAll(r, fetched.value, keyEncoded);
    if |encryptedKeys| <= 0 {
      return Err(NoSupportedKey);
    }
    var header := EncodeLengthDelimited(pb, Header(encryptedKeys, MESSAGE_SIZE));
    if header.Err? {
      return Err(header.error);
    }
    assert g == Ok((key.value, header.value));
    assert EncryptedFile(aead, r, pb, key.value, fetched.value, plain)
      == Ok(header.value + SealStream(aead, key.value, 0, plain, MESSAGE_SIZE));
    res := WriteEncrypted(aead, key.value, header.value, input, output);
  }

  /** The part of `run_encrypt` after the gate: write the framed header, then the sealed stream of the input. */
  method WriteEncrypted(aead: Aead, key: Aes256Siv, header: Bytes, input: Reader, output: Writer)
    returns (res: Result<(), Error>)
    requires SealAddsTag(aead) && input.Valid()
    modifies input, output
    ensures input.Valid()
    ensures res.Ok? ==> output.written == old(output.written) + (header + SealStream(aead, key, 0, old(input.Remaining()), MESSAGE_SIZE))
    ensures res.Err? ==> res.error.Io? && !NoFaults(old(input.script)) && IsPrefix(old(output.written) + header, output.written)
  {
    output.WriteAll(header);
    ghost var w1 := output.written;
    res := EncryptStream(aead, key, input, output, MESSAGE_SIZE);
    if res.Err? {
      assert output.written[..|w1|] == w1;
    }
  }

  // ----- run_decrypt -----

  /**
   * What `run_decrypt` produces from an input file: decode the header, then
   * (and only then) use the private key, recover the session key from the
   * envelopes (prompting only when the input is a file), require the
   * `Aes256Siv` variant, and open the rest with the header's chunk size.
   */
  function DecryptedFile(aead: Aead, r: Rsa, pb: Protobuf, inputIsFile: bool, privateKey: Result<Bytes, Error>,
                         answer: Result<Bytes, Error>, file: Bytes): (o: Opened)
    ensures DecodeFramed(pb, file).Err? ==> o == Opened([], Err(DecodeFramed(pb, file).error))
    ensures DecodeFramed(pb, file).Ok? && privateKey.Err? ==> o == Opened([], Err(privateKey.error))
    ensures DecodeFramed(pb, file).Ok? && privateKey.Ok? ==>
      var key := DecryptKeySpec(r, privateKey.value, DecodeFramed(pb, file).value.0.encryptedKeys, inputIsFile, answer);
      && (key.Err? ==> o == Opened([], Err(key.error)))
      && (key.Ok? && DecodeEncryption(pb, key.value).Err? ==> o == Opened([], Err(DecodeEncryption(pb, key.value).error)))
      && (key.Ok? && DecodeEncryption(pb, key.value) == Ok(Encryption(None)) ==> o == Opened([], Err(NoUsableKey)))
  {
    match DecodeFramed(pb, file)
    case Err(e) => Opened([], Err(e))
    case Ok((header, rest)) =>
      match privateKey
      case Err(e) => Opened([], Err(e))
      case Ok(pem) =>
        match DecryptKeySpec(r, pem, header.encryptedKeys, inputIsFile, answer)
        case Err(e) => Opened([], Err(e))
        case Ok(keyBytes) =>
          match DecodeEncryption(pb, keyBytes)
          case Err(e) => Opened([], Err(e))
          case Ok(Encryption(Some(Aes256SivKey(key)))) => OpenStream(aead, key, 0, rest, header.chunkSize)
          case Ok(Encryption(None)) => Opened([], Err(NoUsableKey))
  }

  /** The passphrase prompt is consulted only when the input is a file: otherwise its answer makes no difference. */
  lemma DecryptedFileIgnoresAnswer(aead: Aead, r: Rsa, pb: Protobuf, privateKey: Result<Bytes, Error>,
                                   answer: Result<Bytes, Error>, answer': Result<Bytes, Error>, file: Bytes)
    ensures DecryptedFile(aead, r, pb, false, privateKey, answer, file) == DecryptedFile(aead, r, pb, false, privateKey, answer', file)
  {
  }

  /**
   * The stream after the header is opened with the header's own chunk size:
   * whatever chunk size c >= 1 the header announces, a stream sealed with
   * pieces of c bytes under the recovered session key decrypts to its
   * plaintext.
   */
  lemma DecryptedFileOpensStream(aead: Aead, r: Rsa, pb: Protobuf, inputIsFile: bool, pem: Bytes,
                                 answer: Result<Bytes, Error>, file: Bytes, h: Header, key: Aes256Siv, plain: Bytes)
    requires Sound(aead) && RoundTrips(pb) && h.chunkSize >= 1
    requires DecodeFramed(pb, file) == Ok((h, SealStream(aead, key, 0, plain, h.chunkSize)))
    requires DecryptKeySpec(r, pem, h.encryptedKeys, inputIsFile, answer) == Ok(EncodeAes256Siv(pb, key))
    ensures DecryptedFile(aead, r, pb, inputIsFile, Ok(pem), answer, file) == Opened(plain, Ok(()))
  {
    StreamRoundTrip(aead, key, 0, plain, h.chunkSize);
  }

  /**
   * `run_decrypt`: unless the input faults, its outcome and output are
   * those of `DecryptedFile` on the input's bytes; whatever happens, what it
   * wrote is a prefix of that output. `privateKey` stands for the outcome of
   * `read_private_key`, `answer` for the passphrase prompt's.
   */
  method RunDecrypt(aead: Aead, r: Rsa, pb: Protobuf, inputIsFile: bool, privateKey: Result<Bytes, Error>,
                    answer: Result<Bytes, Error>, input: Reader, output: Writer)
    returns (res: Result<(), Error>)
    requires OpenStripsTag(aead) && DecryptFits(r) && input.Valid()
    modifies input, output
    ensures input.Valid()
    ensures var o := DecryptedFile(aead, r, pb, inputIsFile, privateKey, answer, old(input.Remaining()));
      NoFaults(old(input.script)) ==> res == o.status && output.written == old(output.written) + o.written
    ensures var o := DecryptedFile(aead, r, pb, inputIsFile, privateKey, answer, old(input.Remaining()));
      res.Ok? ==> o.status.Ok? && output.written == old(output.written) + o.written
    ensures var o := DecryptedFile(aead, r, pb, inputIsFile, privateKey, answer, old(input.Remaining()));
      IsPrefix(old(output.written), output.written) && IsPrefix(output.written[|old(output.written)|..], o.written)
  {
    ghost var file := input.Remaining();
    ghost var s0 := input.script;
    ghost var w0 := output.written;
    var prompt := inputIsFile;
    var header := DecodeLengthDelimited(pb, input);
    if header.Err? {
      return Err(header.error);
    }
    assert DecodeFramed(pb, file) == Ok((header.value, input.Remaining()));
    if privateKey.Err? {
      return Err(privateKey.error);
    }
    var key := DecryptKey(r, privateKey.value, header.value.encryptedKeys, prompt, answer);
    if key.Err? {
      return Err(key.error);
    }
    var encryption := DecodeEncryption(pb, key.value);
    if encryption.Err? {
      return Err(encryption.error);
    }
    match encryption.value.key
    case Some(Aes256SivKey(k)) =>
      if NoFaults(s0) {
        NoFaultsSuffix(input.script, s0);
      }
      res := DecryptStream(aead, k, input, output, header.value.chunkSize);
    case None =>
      res := Err(NoUsableKey);
  }

  // ----- end to end -----

  /**
   * Decrypting what `run_encrypt` writes gives back the plaintext, for a
   * recipient holding the private half of one of the wrapping keys, provided
   * no other envelope opens under that private key to a different value.
   */
  lemma FileRoundTrip(aead: Aead, r: Rsa, pb: Protobuf, key: Aes256Siv, keys: seq<Result<PublicKey, Error>>, plain: Bytes,
                      pem: Bytes, inputIsFile: bool, answer: Result<Bytes, Error>, i: nat)
    requires Sound(aead) && RsaSound(r) && RoundTrips(pb)
    requires HeaderFor(r, pb, key, keys).Ok?
    requires LoadKek(r, pem, inputIsFile, answer).Ok?
    requires i < |keys| && keys[i].Ok? && Encrypt(r, keys[i].value, EncodeAes256Siv(pb, key)).Ok?
    requires Pairs(r, FromComponents(r, keys[i].value.data.modulus, keys[i].value.data.exponent).value,
                   LoadKek(r, pem, inputIsFile, answer).value)
    requires forall e :: e in WrapAll(r, keys, EncodeAes256Siv(pb, key)) ==>
      var d := PrivateDecrypt(r, LoadKek(r, pem, inputIsFile, answer).value, e);
      d.Ok? ==> d.value == EncodeAes256Siv(pb, key)
    ensures DecryptedFile(aead, r, pb, inputIsFile, Ok(pem), answer, EncryptedFile(aead, r, pb, key, keys, plain).value)
      == Opened(plain, Ok(()))
  {
    var keyEncoded := EncodeAes256Siv(pb, key);
    var envelopes := WrapAll(r, keys, keyEncoded);
    var h := Header(envelopes, MESSAGE_SIZE);
    var stream := SealStream(aead, key, 0, plain, MESSAGE_SIZE);
    var kek := LoadKek(r, pem, inputIsFile, answer).value;
    var mine := Encrypt(r, keys[i].value, keyEncoded).value;
    WrapAllMembers(r, keys, keyEncoded, mine);
    EncryptIsCiphertext(r, keys[i].value, keyEncoded);
    assert PrivateDecrypt(r, kek, mine) == Ok(keyEncoded);
    var j :| 0 <= j < |envelopes| && envelopes[j] == mine;
    ScanAllFail(r, kek, envelopes, CouldNotFindKey);
    ScanOkIsFirst(r, kek, envelopes, CouldNotFindKey);
    assert DecryptKeySpec(r, pem, envelopes, inputIsFile, answer) == Ok(keyEncoded);
    DecryptedFileOpensStream(aead, r, pb, inputIsFile, pem, answer, EncryptedFile(aead, r, pb, key, keys, plain).value, h, key, plain);
  }
}
