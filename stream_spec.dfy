/**
 * The chunked authenticated stream as a function on byte strings: the AEAD
 * interface (AES-SIV in miscreant's STREAM mode, treated as an abstract
 * primitive), the chunk sequence `encrypt_stream` emits and the result
 * `decrypt_stream` reaches, and the properties that relate them.
 */
module StreamSpec {
  import opened Wrappers
  import opened Common
  import opened Messages

  /** Bytes of authentication tag in front of every sealed chunk. */
  const TAG_SIZE: nat := 16

  /** Plaintext bytes per full chunk: 8 KiB less the tag. */
  const MESSAGE_SIZE: nat := 8 * 1024 - TAG_SIZE

  /** Where a chunk sits in the stream: STREAM derives each chunk's nonce from this. */
  datatype Position = Position(counter: nat, last: bool)

  /** The STREAM seal and open operations, under a session key, at a position, with empty associated data. */
  datatype Aead = Aead(
    seal: (Aes256Siv, Position, Bytes) -> Bytes,
    open: (Aes256Siv, Position, Bytes) -> Option<Bytes>)

  function Seal(a: Aead, k: Aes256Siv, p: Position, pt: Bytes): Bytes {
    a.seal(k, p, pt)
  }

  function Open(a: Aead, k: Aes256Siv, p: Position, ct: Bytes): Option<Bytes> {
    a.open(k, p, ct)
  }

  /**
   * What the core relies on of the AEAD: a sealed chunk is its plaintext
   * plus a tag, and opening yields a plaintext exactly when the ciphertext
   * is that plaintext's seal at that position.
   */
  ghost predicate Sound(a: Aead) {
    && SealAddsTag(a)
    && (forall k, p, pt :: Open(a, k, p, Seal(a, k, p, pt)) == Some(pt))
    && (forall k, p, ct :: Open(a, k, p, ct).Some? ==> ct == Seal(a, k, p, Open(a, k, p, ct).value))
  }

  /** Sealing puts a TAG_SIZE-byte tag in front of the ciphertext, which is as long as the plaintext. */
  ghost predicate SealAddsTag(a: Aead) {
    forall k, p, pt :: |Seal(a, k, p, pt)| == |pt| + TAG_SIZE
  }

  /** An opened chunk's plaintext is TAG_SIZE bytes shorter than the chunk: all in-place opening needs. */
  ghost predicate OpenStripsTag(a: Aead) {
    forall k, p, ct :: Open(a, k, p, ct).Some? ==> |Open(a, k, p, ct).value| + TAG_SIZE == |ct|
  }

  /**
   * The chunk sequence `encrypt_stream` writes for `pt`, starting at chunk
   * `c`: each full `m`-byte piece sealed as a "next" chunk, then the first
   * short piece (possibly empty) sealed as the single "last" chunk.
   */
  function SealStream(a: Aead, k: Aes256Siv, c: nat, pt: Bytes, m: nat): (ct: Bytes)
    requires m >= 1
    ensures SealAddsTag(a) ==> |ct| == |pt| + TAG_SIZE * (|pt| / m + 1)
    decreases |pt|
  {
    if |pt| < m then
      DivUnique(|pt|, m, 0, |pt|);
      Seal(a, k, Position(c, true), pt)
    else
      DivStep(|pt|, m);
      Seal(a, k, Position(c, false), pt[..m]) + SealStream(a, k, c + 1, pt[m..], m)
  }

  /** The full chunks alone: the seals of the first |pt| / m pieces of size m. */
  function SealNexts(a: Aead, k: Aes256Siv, c: nat, pt: Bytes, m: nat): Bytes
    requires m >= 1
    decreases |pt|
  {
    if |pt| < m then [] else Seal(a, k, Position(c, false), pt[..m]) + SealNexts(a, k, c + 1, pt[m..], m)
  }

  /** What `decrypt_stream` has written when it stops, and how it stopped. */
  datatype Opened = Opened(written: Bytes, status: Result<(), Error>)

  /**
   * The result of `decrypt_stream` on `ct` from chunk `c`: every full
   * block of m + TAG_SIZE bytes is opened as "next", the first shorter
   * block as "last"; the first failure to open stops it.
   */
  function OpenStream(a: Aead, k: Aes256Siv, c: nat, ct: Bytes, m: nat): (o: Opened)
    ensures o.status.Err? ==> o.status.error == AeadFailure
    decreases |ct|
  {
    if |ct| < m + TAG_SIZE then
      match Open(a, k, Position(c, true), ct)
      case Some(pt) => Opened(pt, Ok(()))
      case None => Opened([], Err(AeadFailure))
    else
      match Open(a, k, Position(c, false), ct[..m + TAG_SIZE])
      case None => Opened([], Err(AeadFailure))
      case Some(pt) =>
        var rest := OpenStream(a, k, c + 1, ct[m + TAG_SIZE..], m);
        Opened(pt + rest.written, rest.status)
  }

  /** One "next" chunk of the sealed stream: a full piece sealed at c, then the stream of the rest from c + 1. */
  lemma SealStreamNext(a: Aead, k: Aes256Siv, c: nat, pt: Bytes, m: nat, piece: Bytes, rest: Bytes)
    requires m >= 1 && pt == piece + rest && |piece| == m
    ensures SealStream(a, k, c, pt, m) == Seal(a, k, Position(c, false), piece) + SealStream(a, k, c + 1, rest, m)
  {
    assert pt[..m] == piece && pt[m..] == rest;
  }

  /** One "next" block of the opened stream: a full block opened at c, then the rest from c + 1. */
  lemma OpenStreamNext(a: Aead, k: Aes256Siv, c: nat, ct: Bytes, m: nat, block: Bytes, rest: Bytes)
    requires ct == block + rest && |block| == m + TAG_SIZE
    ensures OpenStream(a, k, c, ct, m) ==
      match Open(a, k, Position(c, false), block)
      case None => Opened([], Err(AeadFailure))
      case Some(pt) => Opened(pt + OpenStream(a, k, c + 1, rest, m).written, OpenStream(a, k, c + 1, rest, m).status)
  {
    assert ct[..m + TAG_SIZE] == block && ct[m + TAG_SIZE..] == rest;
  }

  // ----- the shape of the sealed stream -----

  /** There are |pt| / m full chunks, each of m + TAG_SIZE bytes. */
  lemma {:induction false} SealNextsLength(a: Aead, k: Aes256Siv, c: nat, pt: Bytes, m: nat)
    requires Sound(a) && m >= 1
    ensures |SealNexts(a, k, c, pt, m)| == (|pt| / m) * (m + TAG_SIZE)
    decreases |pt|
  {
    var b := m + TAG_SIZE;
    if |pt| < m {
      DivUnique(|pt|, m, 0, |pt|);
    } else {
      var q := (|pt| - m) / m;
      SealNextsLength(a, k, c + 1, pt[m..], m);
      assert |SealNexts(a, k, c + 1, pt[m..], m)| == q * b;
      DivStep(|pt|, m);
      MulDistrib(q, 1, b);
    }
  }

  /** The pieces `encrypt_stream` seals: full m-byte pieces, then the first short one. */
  function Pieces(pt: Bytes, m: nat): (ps: seq<Bytes>)
    requires m >= 1
    ensures |ps| >= 1
    decreases |pt|
  {
    if |pt| < m then [pt] else [pt[..m]] + Pieces(pt[m..], m)
  }

  function Flatten(ss: seq<Bytes>): Bytes {
    if ss == [] then [] else ss[0] + Flatten(ss[1..])
  }

  /** The pieces put back together are the input; all but the last are full, the last is short. */
  lemma {:induction false} PiecesSplit(pt: Bytes, m: nat)
    requires m >= 1
    ensures var ps := Pieces(pt, m);
      && Flatten(ps) == pt
      && |ps| == |pt| / m + 1
      && (forall i :: 0 <= i < |ps| - 1 ==> |ps[i]| == m)
      && |ps[|ps| - 1]| == |pt| % m
    decreases |pt|
  {
    var ps := Pieces(pt, m);
    if |pt| < m {
      DivUnique(|pt|, m, 0, |pt|);
    } else {
      var rest := Pieces(pt[m..], m);
      PiecesSplit(pt[m..], m);
      DivStep(|pt|, m);
      assert ps == [pt[..m]] + rest;
      assert ps[1..] == rest;
      assert pt[..m] + pt[m..] == pt;
      forall i | 0 <= i < |ps| - 1 ensures |ps[i]| == m {
        if i > 0 {
          assert ps[i] == rest[i - 1];
        }
      }
    }
  }

  /** The chunks sealed from `pieces` starting at chunk c: consecutive counters, only the final one marked last. */
  function SealChunks(a: Aead, k: Aes256Siv, c: nat, pieces: seq<Bytes>): seq<Bytes> {
    seq(|pieces|, i requires 0 <= i < |pieces| => Seal(a, k, Position(c + i, i == |pieces| - 1), pieces[i]))
  }

  /**
   * The sealed stream is the concatenation of one chunk per piece, in order,
   * at consecutive counters from c, with only the final chunk marked last.
   */
  lemma {:induction false} SealStreamChunks(a: Aead, k: Aes256Siv, c: nat, pt: Bytes, m: nat)
    requires m >= 1
    ensures SealStream(a, k, c, pt, m) == Flatten(SealChunks(a, k, c, Pieces(pt, m)))
    decreases |pt|
  {
    var ps := Pieces(pt, m);
    var cs := SealChunks(a, k, c, ps);
    if |pt| < m {
      assert cs == [Seal(a, k, Position(c, true), pt)];
      assert Flatten(cs[1..]) == [];
    } else {
      var rest := Pieces(pt[m..], m);
      SealStreamChunks(a, k, c + 1, pt[m..], m);
      assert ps[1..] == rest;
      var cs' := SealChunks(a, k, c + 1, rest);
      assert cs[1..] == cs' by {
        forall i | 0 <= i < |cs'| ensures cs[1..][i] == cs'[i] {
          assert ps[i + 1] == rest[i];
        }
      }
      assert cs[0] == Seal(a, k, Position(c, false), pt[..m]);
    }
  }

  /**
   * Every chunk but the final one is m + TAG_SIZE bytes; the final one is
   * TAG_SIZE + |pt| % m bytes; there are |pt| / m + 1 of them.
   */
  lemma SealChunkSizes(a: Aead, k: Aes256Siv, c: nat, pt: Bytes, m: nat)
    requires SealAddsTag(a) && m >= 1
    ensures var cs := SealChunks(a, k, c, Pieces(pt, m));
      && |cs| == |pt| / m + 1
      && (forall i :: 0 <= i < |cs| - 1 ==> |cs[i]| == m + TAG_SIZE)
      && |cs[|cs| - 1]| == |pt| % m + TAG_SIZE
  {
    var ps := Pieces(pt, m);
    var cs := SealChunks(a, k, c, ps);
    PiecesSplit(pt, m);
    forall i | 0 <= i < |cs| ensures |cs[i]| == |ps[i]| + TAG_SIZE {
      assert cs[i] == Seal(a, k, Position(c + i, i == |ps| - 1), ps[i]);
    }
  }

  /** The sealed stream is its full chunks followed by the "last" seal of the final |pt| mod m bytes. */
  lemma {:induction false} SealStreamSplitsLast(a: Aead, k: Aes256Siv, c: nat, pt: Bytes, m: nat)
    requires m >= 1
    ensures SealStream(a, k, c, pt, m)
      == SealNexts(a, k, c, pt, m) + Seal(a, k, Position(c + |pt| / m, true), pt[|pt| - |pt| % m..])
    decreases |pt|
  {
    if |pt| < m {
      DivUnique(|pt|, m, 0, |pt|);
      assert pt[|pt| - |pt| % m..] == pt;
    } else {
      SealStreamSplitsLast(a, k, c + 1, pt[m..], m);
      DivStep(|pt|, m);
      assert pt[m..][|pt[m..]| - |pt[m..]| % m..] == pt[|pt| - |pt| % m..];
    }
  }

  // ----- decrypting what was encrypted -----

  /** decrypt_stream(encrypt_stream(P)) == P, for every P and every message size m >= 1. */
  lemma {:induction false} StreamRoundTrip(a: Aead, k: Aes256Siv, c: nat, pt: Bytes, m: nat)
    requires Sound(a) && m >= 1
    ensures OpenStream(a, k, c, SealStream(a, k, c, pt, m), m) == Opened(pt, Ok(()))
    decreases |pt|
  {
    var ct := SealStream(a, k, c, pt, m);
    if |pt| < m {
      assert |ct| == |pt| + TAG_SIZE;
    } else {
      var first := Seal(a, k, Position(c, false), pt[..m]);
      var rest := SealStream(a, k, c + 1, pt[m..], m);
      assert ct == first + rest;
      assert ct[..m + TAG_SIZE] == first;
      assert ct[m + TAG_SIZE..] == rest;
      StreamRoundTrip(a, k, c + 1, pt[m..], m);
      assert pt[..m] + pt[m..] == pt;
    }
  }

  /**
   * Integrity: a stream that decrypts without error is exactly the sealed
   * stream of what it decrypts to, so no other byte string is accepted.
   */
  lemma {:induction false} OpenStreamAcceptsOnlySeals(a: Aead, k: Aes256Siv, c: nat, ct: Bytes, m: nat)
    requires Sound(a) && m >= 1
    requires OpenStream(a, k, c, ct, m).status.Ok?
    ensures ct == SealStream(a, k, c, OpenStream(a, k, c, ct, m).written, m)
    decreases |ct|
  {
    var o := OpenStream(a, k, c, ct, m);
    if |ct| < m + TAG_SIZE {
      assert Open(a, k, Position(c, true), ct) == Some(o.written);
    } else {
      var pt := Open(a, k, Position(c, false), ct[..m + TAG_SIZE]).value;
      var rest := OpenStream(a, k, c + 1, ct[m + TAG_SIZE..], m);
      OpenStreamAcceptsOnlySeals(a, k, c + 1, ct[m + TAG_SIZE..], m);
      assert |pt| == m;
      assert o.written == pt + rest.written;
      assert o.written[..m] == pt && o.written[m..] == rest.written;
      assert ct == ct[..m + TAG_SIZE] + ct[m + TAG_SIZE..];
    }
  }

  /**
   * When decryption fails, what it has written is exactly the plaintext of
   * the full chunks opened before the failure: a whole number of pieces
   * whose seals are the front of the input.
   */
  lemma {:induction false} OpenStreamFailurePrefix(a: Aead, k: Aes256Siv, c: nat, ct: Bytes, m: nat)
    requires Sound(a) && m >= 1
    requires OpenStream(a, k, c, ct, m).status.Err?
    ensures var w := OpenStream(a, k, c, ct, m).written;
      |w| % m == 0 && IsPrefix(SealNexts(a, k, c, w, m), ct)
    decreases |ct|
  {
    var o := OpenStream(a, k, c, ct, m);
    if |ct| >= m + TAG_SIZE && Open(a, k, Position(c, false), ct[..m + TAG_SIZE]).Some? {
      var pt := Open(a, k, Position(c, false), ct[..m + TAG_SIZE]).value;
      var rest := OpenStream(a, k, c + 1, ct[m + TAG_SIZE..], m);
      OpenStreamFailurePrefix(a, k, c + 1, ct[m + TAG_SIZE..], m);
      assert |pt| == m;
      assert o.written == pt + rest.written;
      assert o.written[..m] == pt && o.written[m..] == rest.written;
      DivStep(|o.written|, m);
      var sn := SealNexts(a, k, c + 1, rest.written, m);
      assert SealNexts(a, k, c, o.written, m) == ct[..m + TAG_SIZE] + sn;
      assert ct[m + TAG_SIZE..][..|sn|] == sn;
      assert ct[..m + TAG_SIZE + |sn|] == ct[..m + TAG_SIZE] + ct[m + TAG_SIZE..][..|sn|];
    }
  }

  /** Dropping the last chunk (or any suffix starting at a chunk boundary of full chunks) is detected. */
  lemma {:induction false} TruncationDetected(a: Aead, k: Aes256Siv, c: nat, pt: Bytes, m: nat)
    requires Sound(a) && m >= 1
    ensures OpenStream(a, k, c, SealNexts(a, k, c, pt, m), m).status == Err(AeadFailure)
    decreases |pt|
  {
    var ct := SealNexts(a, k, c, pt, m);
    if |pt| < m {
      assert ct == [];
    } else {
      var first := Seal(a, k, Position(c, false), pt[..m]);
      var rest := SealNexts(a, k, c + 1, pt[m..], m);
      assert ct == first + rest;
      assert ct[..m + TAG_SIZE] == first;
      assert ct[m + TAG_SIZE..] == rest;
      TruncationDetected(a, k, c + 1, pt[m..], m);
    }
  }
}
