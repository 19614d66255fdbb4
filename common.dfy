/** Bytes, fixed-width integers and the error kinds shared by every component. */
module Common {

  type byte = x: int | 0 <= x < 256

  type Bytes = seq<byte>

  const U32_LIMIT: nat := 0x1_0000_0000

  /** Rust's `u32`. */
  type u32 = x: int | 0 <= x < 0x1_0000_0000

  /** The `std::io::ErrorKind`s the model distinguishes. */
  datatype IoError =
    | Interrupted           // a transient signal, retried by the chunk reader
    | UnexpectedEof         // `read_exact` ran out of input
    | IoFailure(code: nat)  // any other failure of the underlying source

  /** The failures the core reports, one variant per distinct cause. */
  datatype Error =
    | Io(io: IoError)
    | AeadFailure             // a STREAM chunk failed to authenticate
    | RandFailure             // `openssl::rand::rand_bytes` failed
    | HeaderTooLarge          // a header body does not fit a u32 length prefix
    | OpenSsl(code: nat)      // an error raised by an openssl RSA or PEM routine
    | UnsupportedPublicKeyType // "Unsupported public key type"
    | FailedToEncryptData     // "Failed to encrypt data"
    | CouldNotFindKey         // "Could not find a key"
    | NoSupportedKey          // "User does not have a supported key"
    | NoUsableKey             // "Could not find a usable key"

  function Min(a: int, b: int): (m: int)
    ensures m <= a && m <= b && (m == a || m == b)
  {
    if a <= b then a else b
  }

  predicate IsPrefix<T(==)>(a: seq<T>, b: seq<T>) {
    |a| <= |b| && b[..|a|] == a
  }

  predicate IsSuffix<T(==)>(a: seq<T>, b: seq<T>) {
    |a| <= |b| && b[|b| - |a|..] == a
  }

  lemma SuffixTrans<T>(a: seq<T>, b: seq<T>, c: seq<T>)
    requires IsSuffix(a, b) && IsSuffix(b, c)
    ensures IsSuffix(a, c)
  {
    assert c[|c| - |a|..] == c[|c| - |b|..][|b| - |a|..];
  }

  // ----- arithmetic the chunk-boundary proofs need -----

  lemma MulDistrib(a: int, b: int, c: int)
    ensures (a + b) * c == a * c + b * c
  {
  }

  lemma MulAtLeast(a: int, m: int)
    requires a >= 1 && m >= 0
    ensures a * m >= m
  {
    MulDistrib(a - 1, 1, m);
    assert (a - 1) * m >= 0;
  }

  /** Euclidean division is determined by its quotient-remainder equation. */
  lemma DivUnique(n: int, m: int, q: int, r: int)
    requires m >= 1 && 0 <= r < m && n == q * m + r
    ensures n / m == q && n % m == r
  {
    var q', r' := n / m, n % m;
    assert n == q' * m + r';
    if q' < q {
      MulDistrib(q - q', q', m);
      MulAtLeast(q - q', m);
      assert false;
    } else if q < q' {
      MulDistrib(q' - q, q, m);
      MulAtLeast(q' - q, m);
      assert false;
    }
  }

  /** Taking one piece of size m off n leaves one piece fewer and the same remainder. */
  lemma DivStep(n: nat, m: nat)
    requires 1 <= m <= n
    ensures (n - m) / m + 1 == n / m && (n - m) % m == n % m
  {
    var q, r := (n - m) / m, (n - m) % m;
    MulDistrib(q, 1, m);
    DivUnique(n, m, q + 1, r);
  }
}
