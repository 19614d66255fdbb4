# ghshare core, modelled and proved in Dafny

ghshare encrypts a file for a GitHub user. It makes a fresh AES-SIV session
key. It wraps that key with each of the user's RSA public keys; each wrapped
copy is an envelope. It then writes a header and the encrypted stream:

- the header is a 4-byte little-endian length followed by a protobuf
  `Header`, which holds the envelopes and the chunk size;
- the stream cuts the file into chunks and seals each one with miscreant's
  STREAM construction over AES-SIV. Every full chunk is sealed as "next".
  The first short chunk, which may be empty, is sealed as "last".

Decryption reads the header and loads the reader's RSA private key, first
without a passphrase. If that load fails for any reason and the input is a
file, it asks for a passphrase and tries once more. It
recovers the session key from the first envelope that decrypts, then opens
the stream chunk by chunk.

The model has eight modules, one per part of the program, besides the
stock `Option` and `Result` types in `Wrappers`:

- `Common`: bytes, `u32`, the error kinds, and a little arithmetic.
- `Messages`: the protobuf messages. The prost codec is a pair of function
  values, and `RoundTrips` says that decoding undoes encoding.
- `ByteIo`: byte sources and sinks.
  - A `Reader` is a class. It holds the bytes it will yield, a position,
    and a schedule of reads. Each step in the schedule delivers up to some
    number of bytes, or fails, transiently (`Interrupted`) or not.
  - A `Writer` is a class whose `written` field grows.
  - `ReadChunk` is the crate's `read_chunk` loop. `ReadExact` is `read_exact`.
- `StreamSpec`: the STREAM AEAD as function values, under narrow
  soundness predicates (`SealAddsTag`, `OpenStripsTag`, `Sound`).
  - `SealStream` specifies what `encrypt_stream` writes.
  - `OpenStream` specifies what `decrypt_stream` writes and how it stops.
  - The lemmas cover the sealed stream's shape and length, the round trip,
    integrity, the output written before a failure, and detection of a
    dropped last chunk.
- `SymmetricStream`: `encrypt_stream` and `decrypt_stream` as loops.
  - The STREAM encryptor and decryptor are classes that seal or open a
    buffer in place.
  - Each loop is proved against `SealStream` or `OpenStream`, however the
    source splits its reads.
- `HeaderFraming`: the length prefix and its round trip. It also holds
  `Aes256Siv::new`, drawing from an `Rng` class, and `Aes256Siv::encode`.
- `Envelope`: envelope wrapping (`Encryptor for PublicKey`) and
  `decrypt_key`. The openssl RSA and PEM routines are function values, and
  `RsaSound` says what of them the core relies on.
- `Orchestration`: `run_encrypt` and `run_decrypt` as methods, the
  collection of envelopes, and the end-to-end round trip.

Values the program gets from outside the core are parameters:

- the GitHub key lookup and `to_public_key`;
- the private-key file;
- the passphrase typed at the prompt;
- the random bytes drawn by `rand_bytes`.

## Model

| member | source | states |
|---|---|---|
| ByteIo.Reader.Read | src/encryption/symm.rs:129-139 | one `read` takes the next scheduled step. On success it copies the source's next bytes to the front of the window. It returns 0 only when the source is exhausted or the window is empty. A failure changes neither the buffer nor the position |
| ByteIo.Writer.WriteAll | src/encryption/symm.rs:62 | `write_all` appends exactly the given bytes |
| ByteIo.ReadStep | src/encryption/symm.rs:24-34 | one pass of the `read_chunk` loop. A success extends the filled window with the source's next bytes and keeps the buffer outside the window unchanged. `Interrupted` leaves the window unchanged. Any other failure is the first fault of the schedule |
| ByteIo.Fill | src/encryption/symm.rs:21-37 | the loop stops only when the window is full or the source reports its end. It retries `Interrupted` and returns any other failure at once |
| ByteIo.FilledWindow | src/encryption/symm.rs:37 | at the loop's exit, the count read is min(window, remaining) and what is left of the source is exactly the unread rest |
| ByteIo.ReadChunk | src/encryption/symm.rs:20-38 | for every way the source splits its reads, a success returns min(window, remaining). The window then holds exactly the source's next bytes, and the buffer outside the window is untouched. A failure is the first non-interruption fault of the schedule, with no fault before it |
| ByteIo.ReadExact | src/header.rs:68-71 | `read_exact` and `read_u32` yield exactly the next n bytes. When fewer remain the error is `UnexpectedEof`. With no fault in the schedule and enough bytes, the read succeeds |
| StreamSpec.SealStream | src/encryption/symm.rs:56-71 | what `encrypt_stream` writes: full pieces sealed as "next" at counters c, c + 1, ..., then the first short piece sealed as "last". With a tag-adding cipher it is \|pt\| + TAG_SIZE * (\|pt\| / m + 1) bytes long: one 16-byte tag per chunk |
| StreamSpec.OpenStream | src/encryption/symm.rs:91-106 | decryption stops with an error only for a chunk that fails to authenticate |
| StreamSpec.SealStreamNext | src/encryption/symm.rs:66-69 | peeling one full piece off the plaintext gives a "next" chunk at counter c, followed by the sealed stream of the rest from c + 1 |
| StreamSpec.OpenStreamNext | src/encryption/symm.rs:100-104 | peeling one full block off the ciphertext opens it as "next" at counter c. On failure it stops there; otherwise it continues with the rest from c + 1 |
| StreamSpec.PiecesSplit | src/encryption/symm.rs:56-71 | the pieces the encrypt loop seals concatenate to the input. There are \|pt\| / m + 1 of them; all but the last are full, and the last holds \|pt\| mod m bytes |
| StreamSpec.SealStreamChunks | src/encryption/symm.rs:56-71 | the sealed stream is one chunk per piece, in order, at consecutive counters, with only the final chunk marked last |
| StreamSpec.SealChunkSizes | src/encryption/symm.rs:53-69 | every chunk but the final one is m + TAG_SIZE bytes and the final one is \|pt\| mod m + TAG_SIZE bytes, so even an empty input yields one tag-only chunk |
| StreamSpec.SealNextsLength | src/encryption/symm.rs:66-69 | the full chunks alone take (\|pt\| / m) * (m + TAG_SIZE) bytes |
| StreamSpec.SealStreamSplitsLast | src/encryption/symm.rs:56-71 | the sealed stream is the "next" seals of the \|pt\| / m full pieces followed by the "last" seal, at counter c + \|pt\| / m, of the final \|pt\| mod m bytes; without that last seal what is left is the truncated stream of `TruncationDetected` |
| StreamSpec.StreamRoundTrip | src/encryption/symm.rs:141-172 | decrypting the sealed stream of any plaintext, for any chunk size m >= 1, gives that plaintext with success |
| StreamSpec.OpenStreamAcceptsOnlySeals | src/encryption/symm.rs:91-106 | a ciphertext that decrypts without error is exactly the sealed stream of what it decrypts to |
| StreamSpec.OpenStreamFailurePrefix | src/encryption/symm.rs:94-101 | on failure the output is a whole number of full pieces, and their "next" seals are the front of the input |
| StreamSpec.TruncationDetected | src/encryption/symm.rs:92-98 | a stream with its last chunk removed fails to authenticate |
| SymmetricStream.Encryptor.constructor | src/encryption/symm.rs:51-52 | a fresh encryptor starts at chunk 0, not finished |
| SymmetricStream.Encryptor.SealNextInPlace | src/encryption/symm.rs:67 | the plaintext behind the tag space becomes the "next" seal at the current counter, filling the buffer; the counter advances |
| SymmetricStream.Encryptor.SealLastInPlace | src/encryption/symm.rs:59-61 | the first len bytes become the "last" seal of the plaintext in them. The rest of the buffer is untouched and the encryptor is finished |
| SymmetricStream.Decryptor.constructor | src/encryption/symm.rs:86-87 | a fresh decryptor starts at chunk 0, not finished |
| SymmetricStream.Decryptor.OpenNextInPlace | src/encryption/symm.rs:101 | the result is the "next" open of the whole buffer at the current counter. On success the plaintext is left behind the tag space and the counter advances |
| SymmetricStream.Decryptor.OpenLastInPlace | src/encryption/symm.rs:94 | the result is the "last" open of the first len bytes. On success the decryptor is finished |
| SymmetricStream.ReadBlock | src/encryption/symm.rs:57 | a short read into the loop's buffer took everything the source had left. A full one leaves the rest of the source behind it. A failure means the schedule holds a fault |
| SymmetricStream.SealLastChunk | src/encryption/symm.rs:58-64 | sealing and writing the short final piece completes the sealed stream of the whole input |
| SymmetricStream.SealNextChunk | src/encryption/symm.rs:66-69 | after sealing and writing a full piece, what is written plus the sealed stream of what remains is still the sealed stream of the whole input |
| SymmetricStream.EncryptChunk | src/encryption/symm.rs:57-70 | one loop pass keeps that invariant and either finishes the stream with the input used up, or consumes input and continues. A failure is an I/O fault of the source |
| SymmetricStream.EncryptStream | src/encryption/symm.rs:41-74 | without a source fault the output is exactly `SealStream` of all the input, for every read split. On a fault, what was written is a prefix of that stream and the error is an I/O error |
| SymmetricStream.OpenLastChunk | src/encryption/symm.rs:93-98 | opening and writing the short final block completes `OpenStream` of the whole input with success, or stops with its authentication failure |
| SymmetricStream.OpenNextChunk | src/encryption/symm.rs:100-104 | after opening and writing a full block, what is written plus `OpenStream` of what remains is still `OpenStream` of the whole input; a failed open is the stream's failure |
| SymmetricStream.DecryptChunk | src/encryption/symm.rs:92-105 | one loop pass keeps that invariant and either finishes the stream or consumes input and continues. A failure is either an I/O fault of the source or the stream's own authentication failure |
| SymmetricStream.DecryptStream | src/encryption/symm.rs:76-109 | without a source fault the outcome and output are exactly those of `OpenStream`, for every read split. In every case the output is a prefix of `OpenStream`'s, and an I/O error implies a source fault |
| HeaderFraming.LeU32 | src/header.rs:58 | `write_u32::<LittleEndian>` writes exactly 4 bytes |
| HeaderFraming.LeU32RoundTrip | src/header.rs:58 | reading back the 4 little-endian bytes of a u32 gives that u32 |
| HeaderFraming.ReadLeU32 | src/header.rs:68 | `read_u32::<LittleEndian>` reads the value whose little-endian encoding is the 4 bytes read, so writing it back gives the same bytes |
| HeaderFraming.FrameAsWritten | src/header.rs:54-62 | the frame as the source builds it: 4 prefix bytes, then the body unchanged. The prefix reads back as the body length mod 2^32 |
| HeaderFraming.Frame | src/header.rs:54-62 | framing succeeds exactly when the body's length fits a u32. The frame is then the 4-byte length of the body followed by the body itself |
| HeaderFraming.Unframe | src/header.rs:64-71 | the body is exactly as long as its prefix announces, and prefix, body and rest reassemble the input. A cut-short prefix or body, and nothing else, gives `UnexpectedEof` |
| HeaderFraming.UnframeFrame | src/header.rs:54-71 | unframing a frame followed by any bytes gives back the body and leaves those bytes untouched |
| HeaderFraming.FrameAsWrittenLosesBody | src/header.rs:58 | with the truncating `as u32`, a body of 2^32 bytes or more is cut at \|body\| mod 2^32. Its tail is left in front of the chunk stream, so the round trip fails |
| HeaderFraming.EncodeLengthDelimited | src/header.rs:54-62 | with the corrected framing (see Findings), encoding fails, with `HeaderTooLarge`, exactly when the encoded header is too long for a u32 prefix. Otherwise unframing the result gives back exactly the encoded header, with nothing after it |
| HeaderFraming.DecodeFramed | src/header.rs:64-76 | a decoded header comes from the number of bytes the prefix announces, and the rest is what follows them. A prefix or body cut short is `UnexpectedEof` |
| HeaderFraming.HeaderRoundTrip | src/header.rs:43-76 | decoding an encoded header followed by the chunk stream gives the header and leaves the stream exactly |
| HeaderFraming.DecodeLengthDelimited | src/header.rs:64-76 | on a stream, decoding agrees with `DecodeFramed` on the source's bytes and consumes exactly the frame, unless the source faults |
| HeaderFraming.Rng.RandBytes | src/header.rs:17-18 | `rand_bytes` fills the buffer with the pool's next bytes and consumes them, or fails with nothing changed |
| HeaderFraming.SessionKeyFrom | src/header.rs:13-20 | a session key is an 8-byte IV and a 64-byte key, taken in that order from the random bytes |
| HeaderFraming.NewAes256Siv | src/header.rs:13-21 | `Aes256Siv::new` draws 72 random bytes, IV first. If the source cannot supply them, it fails with `RandFailure` |
| HeaderFraming.EncodeAes256Siv | src/header.rs:23-32 | the session key is encoded as an `Encryption` holding `Some(Key::Aes256Siv(key))`, which `Encryption::decode` gives back |
| Envelope.Fill | src/encryption/asymm.rs:20-25 | the envelope buffer is `rsa.size()` bytes: what `public_encrypt` wrote, then zeros |
| Envelope.Encrypt | src/encryption/asymm.rs:10-35 | non-RSA keys are refused as unsupported. A success is the size-long buffer holding a ciphertext longer than the input. `FailedToEncryptData` is returned exactly when the reported length does not exceed the input's |
| Envelope.EncryptIsCiphertext | src/encryption/asymm.rs:20-31 | with sound RSA, the envelope is exactly the ciphertext, one modulus long |
| Envelope.LoadKek | src/encryption/asymm.rs:43-56 | first a load without passphrase. If that fails and prompting is allowed, exactly one retry with the prompted passphrase; otherwise the first error. A loaded key came from one of those two attempts |
| Envelope.Scan | src/encryption/asymm.rs:58-68 | the envelope scan: a key it returns is the decryption of one of the envelopes; with no envelopes it reports the error it started with |
| Envelope.ScanFindsFirst | src/encryption/asymm.rs:61-66 | the first envelope that decrypts gives the result; later ones are never tried |
| Envelope.ScanOkIsFirst | src/encryption/asymm.rs:61-66 | a successful scan is the decryption of an envelope before which every envelope failed |
| Envelope.ScanAllFail | src/encryption/asymm.rs:58-68 | the scan fails exactly when every envelope fails. It then reports the last envelope's error, or "Could not find a key" when there are none |
| Envelope.DecryptKeySpec | src/encryption/asymm.rs:38-68 | `decrypt_key`: a failed key load is returned as it is; with no envelopes the error is "Could not find a key"; a recovered key is the decryption of one envelope under the loaded key |
| Envelope.DecryptKey | src/encryption/asymm.rs:38-69 | the `for` loop with its last-error variable and size-long buffer computes the envelope scan after loading the key |
| Envelope.EnvelopeRoundTrip | src/encryption/asymm.rs:78-94 | the paired private key recovers, without prompting, what `encrypt` wrapped with the public key |
| Orchestration.Wrap | src/main.rs:63-67 | one fetched key: a key that failed to parse keeps its error, and only a parsed RSA key yields an envelope |
| Orchestration.WrapAll | src/main.rs:61-69 | the `filter_map(ok)` collection yields at most one envelope per fetched key |
| Orchestration.WrapAllAppend | src/main.rs:61-69 | collecting keys in two runs gives the two collections in turn, so key order is kept |
| Orchestration.WrapAllSingle | src/main.rs:63-68 | one key contributes its envelope if wrapping succeeds and nothing if it fails |
| Orchestration.WrapAllEmpty | src/main.rs:61-73 | there is no envelope exactly when every key fails to parse or to wrap |
| Orchestration.WrapAllMembers | src/main.rs:61-69 | an envelope is collected exactly when it is some key's successful wrap |
| Orchestration.HeaderFor | src/main.rs:71-80 | without envelopes the result is "User does not have a supported key". With at least one, it is the length-delimited encoding of the header holding the envelopes and `chunk_size == MESSAGE_SIZE` |
| Orchestration.EncryptedFile | src/main.rs:77-84 | the file `run_encrypt` writes: it fails with "no supported key" when no envelope results, and exists exactly when the header does. Its front decodes to the header of the envelopes and MESSAGE_SIZE, and what follows the header is exactly the sealed stream of the plaintext |
| Orchestration.EncryptGate | src/main.rs:59-80 | the failures that stop `run_encrypt` before it writes anything: too few random bytes gives `RandFailure`, a failed key fetch returns its error, and a fetch with no envelope gives "no supported key", including for an empty key list. A success pairs the session key drawn from the pool with its framed header |
| Orchestration.RunEncrypt | src/main.rs:58-87 | if the gate fails, input and output are untouched and that error is returned. Otherwise, without a source fault, the output is exactly the header followed by the sealed stream of the input. A failure after the gate is an I/O fault, and the header has already been written |
| Orchestration.WriteEncrypted | src/main.rs:82-84 | after the gate: the output grows by the header followed by the sealed stream of the input; a failure is an I/O fault of the source, after the header was written |
| Orchestration.DecryptedFile | src/main.rs:100-127 | a header that does not decode, or an unreadable private key, stops decryption before any output, and so does a failed key recovery or an undecodable recovered key, each with its own error. A recovered key that holds no AES-SIV key gives "Could not find a usable key" |
| Orchestration.DecryptedFileIgnoresAnswer | src/main.rs:101 | the passphrase prompt is used only when the input is a file: for any other input, decryption does not depend on its answer |
| Orchestration.DecryptedFileOpensStream | src/main.rs:104-124 | the stream after the header is opened with the header's own `chunk_size`. For any chunk size c >= 1, a stream sealed in c-byte pieces under the recovered session key decrypts to its plaintext |
| Orchestration.RunDecrypt | src/main.rs:100-127 | unless the source faults, the outcome and output are exactly `DecryptedFile` of the input's bytes. In every case the output is a prefix of that output |
| Orchestration.FileRoundTrip | src/main.rs:58-127 | decrypting what `run_encrypt` writes gives back the plaintext with success. This needs a recipient holding the private half of one wrapping key, and no other envelope decrypting to a different value under that key |

## Left out

- I/O errors of the sink: the `Writer` never fails, so the `write_all` errors at src/encryption/symm.rs:62, 68, 96 and 103 and the header write at src/main.rs:82 are not modelled.
- The header write at src/main.rs:82 uses `write`, which may write only part of its buffer. The model writes the whole header.
- The cipher itself is a pair of function values (`Aead`), under the soundness assumptions stated as predicates. Left out are AES-SIV, STREAM's nonce derivation from the IV and the counter, miscreant's panic when the counter overflows, and its checks on key and IV lengths.
- RSA, `BigNum::from_slice`, PEM parsing and openssl's error stacks are function values (`Rsa`), and an error is a numeric code. PKCS#1 v1.5 padding (section 7.2 of RFC 8017) is not modelled.
- prost's wire layout is a pair of function values (`Protobuf`) that round-trip. Decoding failures are its own.
- src/github.rs (the key lookup) and `to_public_key` are represented by their outcome, the `fetched` parameter of `RunEncrypt`.
- src/cli.rs is left out: `CliInput::new` and `CliOutput::new` (src/main.rs:75-76, 102-103) are taken to succeed, and the reader and writer are given.
- `read_file` and `read_private_key` (src/main.rs:46-56, 89-98) are represented by their outcome, the `privateKey` parameter. `rpassword`'s prompt is represented by its outcome, the `answer` parameter.
- `run`, `main`, `openssl_probe` and the printing of error causes (src/main.rs:129-148) are left out. They dispatch and report only.
- Allocation is not modelled, including the buffer of up to 4 GiB that src/header.rs:69 allocates from the untrusted prefix.
- The passphrase retry follows the code: it retries after any load failure when `opt.input` names a file, without checking that the failure came from an encrypted key (src/encryption/asymm.rs:44-55, src/main.rs:101).
- Read schedules are finite. A source that reports `Interrupted` forever, which would keep `read_chunk` looping, is not modelled.
- SymmetricStream.EncryptStream: requires a message size of at least 1. With 0 the source's loop would seal empty "next" chunks forever; the program calls it only with MESSAGE_SIZE.
- SymmetricStream.Decryptor.OpenNextInPlace: states nothing about the decryptor or buffer after a failed open, because the stream stops there.
- Orchestration.RunEncrypt: on a source fault after the header is written, states only that the output starts with the header. The prefix property of the rest is stated by SymmetricStream.EncryptStream.
- Orchestration.HeaderFor: follows the corrected framing of "## Findings". For a header body of 2^32 bytes or more it returns `HeaderTooLarge`, where `encode_length_delimited` always succeeds and writes a truncated prefix (src/header.rs:54-62).
- Orchestration.EncryptGate: follows the corrected framing of "## Findings", so it also stops on `HeaderTooLarge`, a gate src/main.rs:77-84 does not have.
- Orchestration.RunEncrypt: follows the corrected framing of "## Findings". For a header body of 2^32 bytes or more it returns `HeaderTooLarge` and writes nothing, where the source writes the truncated-prefix frame and the stream (src/main.rs:77-84).
- HeaderFraming.EncodeLengthDelimited: is the corrected framing of "## Findings"; the as-written frame is `HeaderFraming.FrameAsWritten`.
- Orchestration.DecryptedFile: its contract states the early exits and the usable-key gate. The prompt condition and the chunk size are stated by Orchestration.DecryptedFileIgnoresAnswer and Orchestration.DecryptedFileOpensStream.

## Findings

| source | as written | input that shows it | evidently intended | confidence | as-written member | corrected member |
|---|---|---|---|---|---|---|
| src/header.rs:58 | the length prefix is `encoded.len() as u32`, which keeps only the low 32 bits of the body length | a header body of 2^32 bytes or more, e.g. one with enough envelopes to reach 4 GiB: decoding takes only the first \|body\| mod 2^32 bytes as the header and leaves the rest in front of the chunk stream | refuse a header whose body length a u32 cannot hold, so that decoding always inverts encoding | not executed; needs a header of at least 4 GiB | HeaderFraming.FrameAsWrittenLosesBody | HeaderFraming.Frame |
