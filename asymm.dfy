/**
 * Envelopes: wrapping the encoded session key for each recipient's RSA key
 * (`Encryptor for PublicKey`) and recovering it with the recipient's private
 * key (`decrypt_key`). RSA with PKCS#1 v1.5 padding (section 7.2 of RFC
 * 8017) and PEM loading are abstract primitives.
 */
module Envelope {
  import opened Wrappers
  import opened Common

  /** The key material of an OpenSSH public key; only RSA keys can wrap a session key. */
  datatype KeyData = RsaData(exponent: Bytes, modulus: Bytes) | DsaData | EcdsaData | Ed25519Data

  datatype PublicKey = PublicKey(data: KeyData)

  /** An openssl RSA public key built from a modulus and an exponent. */
  datatype RsaPublicKey = RsaPublicKey(modulus: Bytes, exponent: Bytes)

  /** An openssl RSA private key loaded from PEM. */
  datatype RsaPrivateKey = RsaPrivateKey(handle: nat)

  /** Where the PEM loader's passphrase comes from: a callback that supplies none, or a given one. */
  datatype Passphrase = EmptyCallback | Given(bytes: Bytes)

  /** The openssl calls the core makes; a failing call reports an openssl error stack, here a code. */
  datatype Rsa = Rsa(
    fromComponents: (Bytes, Bytes) -> Result<RsaPublicKey, nat>,
    publicSize: RsaPublicKey -> nat,
    publicEncrypt: (RsaPublicKey, Bytes) -> Result<Bytes, nat>,
    loadPem: (Bytes, Passphrase) -> Result<RsaPrivateKey, nat>,
    privateSize: RsaPrivateKey -> nat,
    privateDecrypt: (RsaPrivateKey, Bytes) -> Result<Bytes, nat>,
    pairs: (RsaPublicKey, RsaPrivateKey) -> bool)

  /** An openssl error stack converted into the crate's error type. */
  function Ssl<T>(x: Result<T, nat>): Result<T, Error> {
    match x
    case Ok(v) => Ok(v)
    case Err(code) => Err(OpenSsl(code))
  }

  /** `BigNum::from_slice` on both parts, then `Rsa::from_public_components(modulus, exponent)`. */
  function FromComponents(r: Rsa, modulus: Bytes, exponent: Bytes): Result<RsaPublicKey, Error> {
    Ssl(r.fromComponents(modulus, exponent))
  }

  /** `rsa.size()`: the modulus length in bytes. */
  function PublicSize(r: Rsa, pub: RsaPublicKey): nat {
    r.publicSize(pub)
  }

  /** `public_encrypt` with PKCS#1 padding: the bytes it writes to the front of the output buffer. */
  function PublicEncrypt(r: Rsa, pub: RsaPublicKey, data: Bytes): Result<Bytes, Error> {
    Ssl(r.publicEncrypt(pub, data))
  }

  function LoadPem(r: Rsa, pem: Bytes, pass: Passphrase): Result<RsaPrivateKey, Error> {
    Ssl(r.loadPem(pem, pass))
  }

  function PrivateSize(r: Rsa, kek: RsaPrivateKey): nat {
    r.privateSize(kek)
  }

  /** `private_decrypt` with PKCS#1 padding: the bytes it writes to the front of the output buffer. */
  function PrivateDecrypt(r: Rsa, kek: RsaPrivateKey, ct: Bytes): Result<Bytes, Error> {
    Ssl(r.privateDecrypt(kek, ct))
  }

  /** The public and the private half of one key pair. */
  function Pairs(r: Rsa, pub: RsaPublicKey, kek: RsaPrivateKey): bool {
    r.pairs(pub, kek)
  }

  /** A decrypted key fits the `kek.size()`-byte buffer it is written to. */
  ghost predicate DecryptFits(r: Rsa) {
    forall kek, ct :: PrivateDecrypt(r, kek, ct).Ok? ==> |PrivateDecrypt(r, kek, ct).value| <= PrivateSize(r, kek)
  }

  /**
   * What the core relies on of RSA: a ciphertext is as long as the modulus,
   * the private half of a pair decrypts what the public half encrypted, and
   * decryptions fit the buffer.
   */
  ghost predicate RsaSound(r: Rsa) {
    && (forall pub, m :: PublicEncrypt(r, pub, m).Ok? ==> |PublicEncrypt(r, pub, m).value| == PublicSize(r, pub))
    && (forall pub, kek, m {:trigger Pairs(r, pub, kek), PublicEncrypt(r, pub, m)} ::
          Pairs(r, pub, kek) && PublicEncrypt(r, pub, m).Ok? ==> PrivateDecrypt(r, kek, PublicEncrypt(r, pub, m).value) == Ok(m))
    && DecryptFits(r)
  }

  // ----- Encryptor for PublicKey -----

  function Zeros(n: nat): (z: Bytes)
    ensures |z| == n && forall i :: 0 <= i < n ==> z[i] == 0
  {
    seq(n, _ => 0)
  }

  /** A zeroed buffer of `size` bytes after openssl has written `written` to its front. */
  function Fill(size: nat, written: Bytes): (buf: Bytes)
    ensures |buf| == size
    ensures |written| <= size ==> buf[..|written|] == written && forall i :: |written| <= i < size ==> buf[i] == 0
  {
    if |written| <= size then written + Zeros(size - |written|) else written[..size]
  }

  /**
   * `encrypt`: only RSA keys are accepted; the output is the whole
   * `rsa.size()`-byte buffer, and an encryption whose reported length does
   * not exceed the input's is refused.
   */
  function Encrypt(r: Rsa, pk: PublicKey, data: Bytes): (res: Result<Bytes, Error>)
    ensures !pk.data.RsaData? ==> res == Err(UnsupportedPublicKeyType)
    ensures res.Ok? ==>
      && pk.data.RsaData?
      && var pub := FromComponents(r, pk.data.modulus, pk.data.exponent);
      && pub.Ok? && PublicEncrypt(r, pub.value, data).Ok?
      && |data| < |PublicEncrypt(r, pub.value, data).value|
      && res.value == Fill(PublicSize(r, pub.value), PublicEncrypt(r, pub.value, data).value)
    ensures res == Err(FailedToEncryptData) <==>
      && pk.data.RsaData?
      && var pub := FromComponents(r, pk.data.modulus, pk.data.exponent);
      && pub.Ok? && PublicEncrypt(r, pub.value, data).Ok?
      && |PublicEncrypt(r, pub.value, data).value| <= |data|
  {
    match pk.data
    case RsaData(exponent, modulus) =>
      (match FromComponents(r, modulus, exponent)
       case Err(e) => Err(e)
       case Ok(pub) =>
         match PublicEncrypt(r, pub, data)
         case Err(e) => Err(e)
         case Ok(written) =>
           if |written| <= |data| then Err(FailedToEncryptData)
           else Ok(Fill(PublicSize(r, pub), written)))
    case _ => Err(UnsupportedPublicKeyType)
  }

  /** With a sound RSA the envelope is exactly the ciphertext, one modulus long. */
  lemma EncryptIsCiphertext(r: Rsa, pk: PublicKey, data: Bytes)
    requires RsaSound(r) && Encrypt(r, pk, data).Ok?
    ensures var pub := FromComponents(r, pk.data.modulus, pk.data.exponent).value;
      && Encrypt(r, pk, data).value == PublicEncrypt(r, pub, data).value
      && |Encrypt(r, pk, data).value| == PublicSize(r, pub)
  {
    var pub := FromComponents(r, pk.data.modulus, pk.data.exponent).value;
    var written := PublicEncrypt(r, pub, data).value;
    assert |written| == PublicSize(r, pub);
    assert Fill(PublicSize(r, pub), written) == written + [];
  }

  // ----- decrypt_key: loading the key-encryption key -----

  /**
   * The key-encryption key: one attempt with a callback that supplies no
   * passphrase; if that fails and prompting is allowed, exactly one more with
   * the prompted passphrase `answer` (the prompt itself may fail); otherwise
   * the first attempt's error.
   */
  function LoadKek(r: Rsa, pem: Bytes, prompt: bool, answer: Result<Bytes, Error>): (res: Result<RsaPrivateKey, Error>)
    ensures LoadPem(r, pem, EmptyCallback).Ok? ==> res == LoadPem(r, pem, EmptyCallback)
    ensures !prompt ==> res == LoadPem(r, pem, EmptyCallback)
    ensures prompt && LoadPem(r, pem, EmptyCallback).Err? && answer.Err? ==> res == Err(answer.error)
    ensures prompt && LoadPem(r, pem, EmptyCallback).Err? && answer.Ok? ==> res == LoadPem(r, pem, Given(answer.value))
    ensures res.Ok? ==> exists pass :: res == LoadPem(r, pem, pass) && (pass == EmptyCallback || (prompt && answer == Ok(pass.bytes)))
  {
    match LoadPem(r, pem, EmptyCallback)
    case Ok(kek) => Ok(kek)
    case Err(err) =>
      if prompt then
        match answer
        case Err(e) => Err(e)
        case Ok(passphrase) => LoadPem(r, pem, Given(passphrase))
      else
        Err(err)
  }

  // ----- decrypt_key: the envelope scan -----

  /**
   * The scan over the envelopes: the first one that decrypts gives the
   * result; when none does, the error of the last attempt (`lastError` when
   * there are none).
   */
  function Scan(r: Rsa, kek: RsaPrivateKey, keys: seq<Bytes>, lastError: Error): (res: Result<Bytes, Error>)
    ensures res.Ok? ==> exists i :: 0 <= i < |keys| && PrivateDecrypt(r, kek, keys[i]) == res
    ensures keys == [] ==> res == Err(lastError)
    decreases |keys|
  {
    if keys == [] then Err(lastError)
    else
      match PrivateDecrypt(r, kek, keys[0])
      case Ok(pt) => Ok(pt)
      case Err(e) => Scan(r, kek, keys[1..], e)
  }

  /** The first envelope that decrypts wins; the ones after it are never tried. */
  lemma {:induction false} ScanFindsFirst(r: Rsa, kek: RsaPrivateKey, keys: seq<Bytes>, e: Error, i: nat)
    requires i < |keys| && PrivateDecrypt(r, kek, keys[i]).Ok?
    requires forall j :: 0 <= j < i ==> PrivateDecrypt(r, kek, keys[j]).Err?
    ensures Scan(r, kek, keys, e) == PrivateDecrypt(r, kek, keys[i])
    decreases i
  {
    if i > 0 {
      assert PrivateDecrypt(r, kek, keys[0]).Err?;
      forall j | 0 <= j < i - 1 ensures PrivateDecrypt(r, kek, keys[1..][j]).Err? {
        assert keys[1..][j] == keys[j + 1];
      }
      ScanFindsFirst(r, kek, keys[1..], PrivateDecrypt(r, kek, keys[0]).error, i - 1);
    }
  }

  /** A successful scan returns the decryption of an envelope that every earlier one failed before. */
  lemma {:induction false} ScanOkIsFirst(r: Rsa, kek: RsaPrivateKey, keys: seq<Bytes>, e: Error)
    requires Scan(r, kek, keys, e).Ok?
    ensures exists i ::
      && 0 <= i < |keys| && PrivateDecrypt(r, kek, keys[i]) == Scan(r, kek, keys, e)
      && forall j :: 0 <= j < i ==> PrivateDecrypt(r, kek, keys[j]).Err?
    decreases |keys|
  {
    if PrivateDecrypt(r, kek, keys[0]).Ok? {
      assert PrivateDecrypt(r, kek, keys[0]) == Scan(r, kek, keys, e);
    } else {
      var e' := PrivateDecrypt(r, kek, keys[0]).error;
      ScanOkIsFirst(r, kek, keys[1..], e');
      var i :| 0 <= i < |keys[1..]| && PrivateDecrypt(r, kek, keys[1..][i]) == Scan(r, kek, keys[1..], e')
        && forall j :: 0 <= j < i ==> PrivateDecrypt(r, kek, keys[1..][j]).Err?;
      assert keys[1..][i] == keys[i + 1];
      forall j | 0 <= j < i + 1 ensures PrivateDecrypt(r, kek, keys[j]).Err? {
        if j > 0 {
          assert keys[1..][j - 1] == keys[j];
        }
      }
    }
  }

  /**
   * The scan fails exactly when every envelope fails, and then reports the
   * last envelope's error, or `lastError` when there are no envelopes.
   */
  lemma {:induction false} ScanAllFail(r: Rsa, kek: RsaPrivateKey, keys: seq<Bytes>, e: Error)
    ensures Scan(r, kek, keys, e).Err? <==> forall i :: 0 <= i < |keys| ==> PrivateDecrypt(r, kek, keys[i]).Err?
    ensures Scan(r, kek, keys, e).Err? ==>
      Scan(r, kek, keys, e).error == if keys == [] then e else PrivateDecrypt(r, kek, keys[|keys| - 1]).error
    decreases |keys|
  {
    if keys != [] {
      match PrivateDecrypt(r, kek, keys[0])
      case Ok(_) =>
      case Err(e') =>
        ScanAllFail(r, kek, keys[1..], e');
        if forall i :: 0 <= i < |keys[1..]| ==> PrivateDecrypt(r, kek, keys[1..][i]).Err? {
          forall i | 0 <= i < |keys| ensures PrivateDecrypt(r, kek, keys[i]).Err? {
            if i > 0 {
              assert keys[i] == keys[1..][i - 1];
            }
          }
        } else {
          var i :| 0 <= i < |keys[1..]| && PrivateDecrypt(r, kek, keys[1..][i]).Ok?;
          assert keys[1..][i] == keys[i + 1];
        }
        if keys[1..] != [] {
          assert keys[1..][|keys[1..]| - 1] == keys[|keys| - 1];
        }
    }
  }

  /**
   * `decrypt_key`: load the key-encryption key, then scan the envelopes. A
   * recovered key is the decryption of one of them; with none the error is
   * "Could not find a key".
   */
  function DecryptKeySpec(r: Rsa, pem: Bytes, keys: seq<Bytes>, prompt: bool, answer: Result<Bytes, Error>)
    : (res: Result<Bytes, Error>)
    ensures LoadKek(r, pem, prompt, answer).Err? ==> res == Err(LoadKek(r, pem, prompt, answer).error)
    ensures LoadKek(r, pem, prompt, answer).Ok? && keys == [] ==> res == Err(CouldNotFindKey)
    ensures res.Ok? ==>
      && LoadKek(r, pem, prompt, answer).Ok?
      && exists i :: 0 <= i < |keys| && PrivateDecrypt(r, LoadKek(r, pem, prompt, answer).value, keys[i]) == res
  {
    match LoadKek(r, pem, prompt, answer)
    case Err(e) => Err(e)
    case Ok(kek) => Scan(r, kek, keys, CouldNotFindKey)
  }

  /**
   * `decrypt_key` as the source runs it: the scan is a `for` loop that keeps
   * the last error and returns the front of the `kek.size()`-byte buffer the
   * first successful decryption writes.
   */
  method DecryptKey(r: Rsa, pem: Bytes, keys: seq<Bytes>, prompt: bool, answer: Result<Bytes, Error>)
    returns (res: Result<Bytes, Error>)
    requires DecryptFits(r)
    ensures res == DecryptKeySpec(r, pem, keys, prompt, answer)
  {
    var loaded := LoadKek(r, pem, prompt, answer);
    if loaded.Err? {
      return Err(loaded.error);
    }
    var kek := loaded.value;
    var lastError := CouldNotFindKey;
    var buf := new byte[PrivateSize(r, kek)];
    for i := 0 to |keys|
      invariant Scan(r, kek, keys, CouldNotFindKey) == Scan(r, kek, keys[i..], lastError)
    {
      assert keys[i..][1..] == keys[i + 1..];
      var decrypted := PrivateDecrypt(r, kek, keys[i]);
      match decrypted
      case Ok(pt) =>
        forall j | 0 <= j < |pt| {
          buf[j] := pt[j];
        }
        assert buf[..|pt|] == pt;
        return Ok(buf[..|pt|]);
      case Err(e) =>
        lastError := e;
    }
    res := Err(lastError);
  }

  /**
   * Round trip: the private half of the key pair recovers what `encrypt`
   * wrapped with the public half, from a single envelope, without prompting.
   */
  lemma EnvelopeRoundTrip(r: Rsa, pk: PublicKey, pem: Bytes, m: Bytes, answer: Result<Bytes, Error>)
    requires RsaSound(r) && Encrypt(r, pk, m).Ok?
    requires LoadPem(r, pem, EmptyCallback).Ok?
    requires Pairs(r, FromComponents(r, pk.data.modulus, pk.data.exponent).value, LoadPem(r, pem, EmptyCallback).value)
    ensures DecryptKeySpec(r, pem, [Encrypt(r, pk, m).value], false, answer) == Ok(m)
  {
    EncryptIsCiphertext(r, pk, m);
  }
}
