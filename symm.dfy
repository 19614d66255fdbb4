/**
 * `encrypt_stream` and `decrypt_stream`: the loops that cut a byte source
 * into chunks, seal or open them in place with a STREAM encryptor or
 * decryptor, and append the results to a byte sink. Each is proved against
 * the stream functions of `StreamSpec`.
 */
module SymmetricStream {
  import opened Wrappers
  import opened Common
  import opened Messages
  import opened ByteIo
  import opened StreamSpec

  /** The error a failed open reports. */
  function OpenResult(o: Option<Bytes>): Result<Bytes, Error> {
    match o
    case Some(pt) => Ok(pt)
    case None => Err(AeadFailure)
  }

  /**
   * miscreant's STREAM encryptor: a session key and a chunk counter that
   * each "next" seal advances. Sealing the last chunk consumes it.
   */
  class Encryptor {
    const aead: Aead
    const key: Aes256Siv
    var counter: nat
    var finished: bool

    constructor (aead: Aead, key: Aes256Siv)
      ensures this.aead == aead && this.key == key && counter == 0 && !finished
    {
      this.aead := aead;
      this.key := key;
      counter := 0;
      finished := false;
    }

    /** `seal_next_in_place`: the plaintext in `buf[TAG_SIZE..]` becomes tag and ciphertext filling `buf`. */
    method SealNextInPlace(buf: array<byte>)
      requires SealAddsTag(aead) && !finished && TAG_SIZE <= buf.Length
      modifies this, buf
      ensures buf[..] == Seal(aead, key, Position(old(counter), false), old(buf[TAG_SIZE..]))
      ensures counter == old(counter) + 1 && !finished
    {
      var ct := Seal(aead, key, Position(counter, false), buf[TAG_SIZE..]);
      forall i | 0 <= i < buf.Length {
        buf[i] := ct[i];
      }
      counter := counter + 1;
    }

    /** `seal_last_in_place` on `buf[..len]`: the plaintext in `buf[TAG_SIZE..len]` is sealed as the last chunk. */
    method SealLastInPlace(buf: array<byte>, len: nat)
      requires SealAddsTag(aead) && !finished && TAG_SIZE <= len <= buf.Length
      modifies this, buf
      ensures buf[..len] == Seal(aead, key, Position(old(counter), true), old(buf[TAG_SIZE..len]))
      ensures buf[len..] == old(buf[len..])
      ensures counter == old(counter) && finished
    {
      var ct := Seal(aead, key, Position(counter, true), buf[TAG_SIZE..len]);
      forall i | 0 <= i < len {
        buf[i] := ct[i];
      }
      finished := true;
    }
  }

  /** miscreant's STREAM decryptor: the counterpart of `Encryptor`. */
  class Decryptor {
    const aead: Aead
    const key: Aes256Siv
    var counter: nat
    var finished: bool

    constructor (aead: Aead, key: Aes256Siv)
      ensures this.aead == aead && this.key == key && counter == 0 && !finished
    {
      this.aead := aead;
      this.key := key;
      counter := 0;
      finished := false;
    }

    /**
     * `open_next_in_place`: opens the whole of `buf` as a "next" chunk; on
     * success the plaintext is left in `buf[TAG_SIZE..]` and returned.
     */
    method OpenNextInPlace(buf: array<byte>) returns (r: Result<Bytes, Error>)
      requires OpenStripsTag(aead) && !finished
      modifies this, buf
      ensures r == OpenResult(Open(aead, key, Position(old(counter), false), old(buf[..])))
      ensures r.Ok? ==> TAG_SIZE <= buf.Length && buf[TAG_SIZE..] == r.value
      ensures r.Ok? ==> counter == old(counter) + 1 && !finished
    {
      var outcome := Open(aead, key, Position(counter, false), buf[..]);
      if outcome.None? {
        return Err(AeadFailure);
      }
      var pt := outcome.value;
      forall i | TAG_SIZE <= i < buf.Length {
        buf[i] := pt[i - TAG_SIZE];
      }
      counter := counter + 1;
      r := Ok(pt);
    }

    /** `open_last_in_place` on `buf[..len]`: opens it as the last chunk. */
    method OpenLastInPlace(buf: array<byte>, len: nat) returns (r: Result<Bytes, Error>)
      requires OpenStripsTag(aead) && !finished && len <= buf.Length
      modifies this, buf
      ensures r == OpenResult(Open(aead, key, Position(old(counter), true), old(buf[..len])))
      ensures r.Ok? ==> TAG_SIZE <= len && buf[TAG_SIZE..len] == r.value && finished
      ensures buf[len..] == old(buf[len..])
    {
      var outcome := Open(aead, key, Position(counter, true), buf[..len]);
      if outcome.None? {
        return Err(AeadFailure);
      }
      var pt := outcome.value;
      assert |pt| + TAG_SIZE == |buf[..len]| == len;
      forall i | TAG_SIZE <= i < len {
        buf[i] := pt[i - TAG_SIZE];
      }
      assert buf[TAG_SIZE..len] == pt;
      finished := true;
      r := Ok(pt);
    }
  }

  /** A fault in what is left of a read schedule is a fault in the whole schedule. */
  lemma FaultInSuffix(s: seq<Step>, t: seq<Step>)
    requires IsSuffix(s, t) && !NoFaults(s)
    ensures !NoFaults(t)
  {
    if NoFaults(t) {
      NoFaultsSuffix(s, t);
    }
  }

  /**
   * `read_chunk` into the window `buf[lo..hi]`, seen from the chunk loops: a
   * short read took all that was left of the source, a full one leaves the
   * rest behind it, and a failure means the schedule `s0` holds a fault.
   */
  method ReadBlock(input: Reader, buf: array<byte>, lo: nat, hi: nat, ghost s0: seq<Step>) returns (r: Result<nat, IoError>)
    requires input.Valid() && IsSuffix(input.script, s0) && lo <= hi <= buf.Length
    modifies input, buf
    ensures input.Valid() && IsSuffix(input.script, s0)
    ensures r.Err? ==> !NoFaults(s0)
    ensures r.Ok? ==> lo + r.value <= hi
    ensures r.Ok? && lo + r.value < hi ==> old(input.Remaining()) == buf[lo..lo + r.value] && input.Remaining() == []
    ensures r.Ok? && lo + r.value == hi ==> old(input.Remaining()) == buf[lo..hi] + input.Remaining()
  {
    ghost var rem := input.Remaining();
    ghost var sBefore := input.script;
    r := ReadChunk(input, buf, lo, hi);
    SuffixTrans(input.script, sBefore, s0);
    if r.Err? {
      FaultInSuffix(sBefore, s0);
    } else if lo + r.value == hi {
      assert rem == rem[..r.value] + rem[r.value..];
    }
  }

  /**
   * The "last" branch of `encrypt_stream`'s loop: the short piece read into
   * `buf[TAG_SIZE..TAG_SIZE + n]`, which was all that `input` had left, is
   * sealed as the last chunk and written. Stated against the loop's
   * bookkeeping: `spec` is the whole sealed stream, of which `done` is
   * written so far.
   */
  method SealLastChunk(encryptor: Encryptor, input: Reader, output: Writer, buf: array<byte>, n: nat, messageSize: nat,
                       ghost spec: Bytes, ghost done: Bytes, ghost s0: seq<Step>, ghost w0: Bytes, ghost rem: Bytes)
    returns (r: Result<bool, Error>, ghost sealed: Bytes)
    requires SealAddsTag(encryptor.aead) && !encryptor.finished && messageSize >= 1
    requires input.Valid() && IsSuffix(input.script, s0) && input.Remaining() == []
    requires TAG_SIZE + n <= buf.Length && rem == buf[TAG_SIZE..TAG_SIZE + n] && n < messageSize
    requires output.written == w0 + done
    requires done + SealStream(encryptor.aead, encryptor.key, encryptor.counter, rem, messageSize) == spec
    modifies encryptor, output, buf
    ensures input.Valid() && IsSuffix(input.script, s0)
    ensures output.written == w0 + (done + sealed)
    ensures r == Ok(true) && input.Remaining() == [] && done + sealed == spec
  {
    encryptor.SealLastInPlace(buf, TAG_SIZE + n);
    output.WriteAll(buf[..TAG_SIZE + n]);
    sealed := buf[..TAG_SIZE + n];
    assert (w0 + done) + sealed == w0 + (done + sealed);
    r := Ok(true);
  }

  /**
   * The "next" branch of `encrypt_stream`'s loop: the full piece in
   * `buf[TAG_SIZE..]`, which `input` still follows with the rest, is sealed
   * as a "next" chunk and written.
   */
  method SealNextChunk(encryptor: Encryptor, input: Reader, output: Writer, buf: array<byte>, messageSize: nat,
                       ghost spec: Bytes, ghost done: Bytes, ghost s0: seq<Step>, ghost w0: Bytes, ghost rem: Bytes)
    returns (r: Result<bool, Error>, ghost sealed: Bytes)
    requires SealAddsTag(encryptor.aead) && !encryptor.finished && messageSize >= 1
    requires input.Valid() && IsSuffix(input.script, s0)
    requires buf.Length == messageSize + TAG_SIZE && rem == buf[TAG_SIZE..buf.Length] + input.Remaining()
    requires output.written == w0 + done
    requires done + SealStream(encryptor.aead, encryptor.key, encryptor.counter, rem, messageSize) == spec
    modifies encryptor, output, buf
    ensures input.Valid() && IsSuffix(input.script, s0)
    ensures output.written == w0 + (done + sealed)
    ensures r == Ok(false) && !encryptor.finished && |input.Remaining()| < |rem|
    ensures (done + sealed) + SealStream(encryptor.aead, encryptor.key, encryptor.counter, input.Remaining(), messageSize) == spec
  {
    ghost var next := input.Remaining();
    assert buf[TAG_SIZE..buf.Length] == buf[TAG_SIZE..];
    SealStreamNext(encryptor.aead, encryptor.key, encryptor.counter, rem, messageSize, buf[TAG_SIZE..], next);
    encryptor.SealNextInPlace(buf);
    output.WriteAll(buf[..]);
    sealed := buf[..];
    assert (w0 + done) + sealed == w0 + (done + sealed);
    ghost var rest := SealStream(encryptor.aead, encryptor.key, encryptor.counter, next, messageSize);
    assert done + (sealed + rest) == (done + sealed) + rest;
    assert input.Remaining() == next;
    r := Ok(false);
  }

  /**
   * One pass of `encrypt_stream`'s loop: read up to `messageSize` bytes
   * behind the tag space, then seal and write a "next" chunk when the piece
   * is full, or the "last" chunk (and report it, `Ok(true)`) when it is
   * short. `sealed` is what the pass wrote; the contract is the loop's
   * invariant, carried from one pass to the next.
   */
  method EncryptChunk(encryptor: Encryptor, input: Reader, output: Writer, buf: array<byte>, messageSize: nat,
                      ghost spec: Bytes, ghost done: Bytes, ghost s0: seq<Step>, ghost w0: Bytes)
    returns (r: Result<bool, Error>, ghost sealed: Bytes)
    requires SealAddsTag(encryptor.aead) && input.Valid() && IsSuffix(input.script, s0) && messageSize >= 1
    requires !encryptor.finished && buf.Length == messageSize + TAG_SIZE
    requires output.written == w0 + done
    requires done + SealStream(encryptor.aead, encryptor.key, encryptor.counter, input.Remaining(), messageSize) == spec
    modifies input, output, encryptor, buf
    ensures input.Valid() && IsSuffix(input.script, s0)
    ensures output.written == w0 + (done + sealed)
    ensures r.Err? ==> r.error.Io? && !NoFaults(s0) && sealed == []
    ensures r.Ok? && r.value ==> input.Remaining() == [] && done + sealed == spec
    ensures r.Ok? && !r.value ==>
      && !encryptor.finished && |input.Remaining()| < |old(input.Remaining())|
      && (done + sealed) + SealStream(encryptor.aead, encryptor.key, encryptor.counter, input.Remaining(), messageSize) == spec
  {
    ghost var rem := input.Remaining();
    var got := ReadBlock(input, buf, TAG_SIZE, buf.Length, s0);
    if got.Err? {
      return Err(Io(got.error)), [];
    }
    var n := got.value;
    if n < messageSize {
      r, sealed := SealLastChunk(encryptor, input, output, buf, n, messageSize, spec, done, s0, w0, rem);
    } else {
      r, sealed := SealNextChunk(encryptor, input, output, buf, messageSize, spec, done, s0, w0, rem);
    }
  }

  /**
   * `encrypt_stream`: reads pieces of `messageSize` bytes into the buffer
   * behind the tag space, seals each full piece as "next" and the first short
   * one as "last", and writes every sealed chunk. However the source splits
   * its reads, the output is the sealed stream of the source's bytes; when
   * the source faults, what was written is a prefix of that stream.
   */
  method EncryptStream(aead: Aead, key: Aes256Siv, input: Reader, output: Writer, messageSize: nat)
    returns (r: Result<(), Error>)
    requires SealAddsTag(aead) && input.Valid() && messageSize >= 1
    modifies input, output
    ensures input.Valid() && IsSuffix(input.script, old(input.script))
    ensures r.Ok? ==> output.written == old(output.written) + SealStream(aead, key, 0, old(input.Remaining()), messageSize)
    ensures r.Ok? ==> input.Remaining() == []
    ensures r.Err? ==> r.error.Io? && !NoFaults(old(input.script))
    ensures r.Err? ==>
      IsPrefix(old(output.written), output.written)
      && IsPrefix(output.written[|old(output.written)|..], SealStream(aead, key, 0, old(input.Remaining()), messageSize))
  {
    ghost var plain := input.Remaining();
    ghost var w0 := output.written;
    ghost var s0 := input.script;
    ghost var done: Bytes := [];
    ghost var spec := SealStream(aead, key, 0, plain, messageSize);
    var encryptor := new Encryptor(aead, key);
    var buf := new byte[messageSize + TAG_SIZE];
    while true
      invariant input.Valid() && IsSuffix(input.script, s0)
      invariant output.written == w0 + done
      invariant done + SealStream(aead, key, encryptor.counter, input.Remaining(), messageSize) == spec
      invariant !encryptor.finished && buf.Length == messageSize + TAG_SIZE
      invariant encryptor.aead == aead && encryptor.key == key
      decreases |input.Remaining()|
    {
      var step, sealed := EncryptChunk(encryptor, input, output, buf, messageSize, spec, done, s0, w0);
      if step.Err? {
        assert output.written[|w0|..] == done;
        assert spec[..|done|] == done;
        return Err(step.error);
      }
      if step.value {
        return Ok(());
      }
      done := done + sealed;
    }
  }

  /**
   * The "last" branch of `decrypt_stream`'s loop: the short block read into
   * `buf[..n]`, which was all that `input` had left, is opened as the last
   * chunk and its plaintext written. Stated against the loop's bookkeeping:
   * `spec` is the outcome for the whole stream, of which `done` is written
   * so far.
   */
  method OpenLastChunk(decryptor: Decryptor, input: Reader, output: Writer, buf: array<byte>, n: nat, messageSize: nat,
                       ghost spec: Opened, ghost done: Bytes, ghost s0: seq<Step>, ghost w0: Bytes, ghost rem: Bytes)
    returns (r: Result<bool, Error>, ghost plain: Bytes)
    requires OpenStripsTag(decryptor.aead) && !decryptor.finished && input.Valid() && input.Remaining() == []
    requires IsSuffix(input.script, s0)
    requires n <= buf.Length && rem == buf[..n]
    requires output.written == w0 + done
    requires var o := OpenStream(decryptor.aead, decryptor.key, decryptor.counter, rem, messageSize);
      spec == Opened(done + o.written, o.status)
    requires |rem| < messageSize + TAG_SIZE
    modifies decryptor, output, buf
    ensures input.Valid() && IsSuffix(input.script, s0)
    ensures output.written == w0 + (done + plain)
    ensures r.Err? ==> plain == [] && ((r.error.Io? && !NoFaults(s0)) || (spec.status == Err(r.error) && spec.written == done))
    ensures r.Ok? ==> r.value && input.Remaining() == [] && spec == Opened(done + plain, Ok(()))
  {
    var outcome := decryptor.OpenLastInPlace(buf, n);
    if outcome.Err? {
      return Err(outcome.error), [];
    }
    output.WriteAll(outcome.value);
    assert (w0 + done) + outcome.value == w0 + (done + outcome.value);
    r, plain := Ok(true), outcome.value;
  }

  /**
   * The "next" branch of `decrypt_stream`'s loop: the full block in `buf`,
   * which `input` still follows with `next`, is opened as a "next" chunk and
   * its plaintext written.
   */
  method OpenNextChunk(decryptor: Decryptor, input: Reader, output: Writer, buf: array<byte>, messageSize: nat,
                       ghost spec: Opened, ghost done: Bytes, ghost s0: seq<Step>, ghost w0: Bytes, ghost rem: Bytes)
    returns (r: Result<bool, Error>, ghost plain: Bytes)
    requires OpenStripsTag(decryptor.aead) && !decryptor.finished && input.Valid() && IsSuffix(input.script, s0)
    requires buf.Length == messageSize + TAG_SIZE && rem == buf[..] + input.Remaining()
    requires output.written == w0 + done
    requires var o := OpenStream(decryptor.aead, decryptor.key, decryptor.counter, rem, messageSize);
      spec == Opened(done + o.written, o.status)
    modifies decryptor, output, buf
    ensures input.Valid() && IsSuffix(input.script, s0)
    ensures output.written == w0 + (done + plain)
    ensures r.Err? ==> plain == [] && ((r.error.Io? && !NoFaults(s0)) || (spec.status == Err(r.error) && spec.written == done))
    ensures r.Ok? ==>
      && !r.value && !decryptor.finished && |input.Remaining()| < |rem|
      && var o' := OpenStream(decryptor.aead, decryptor.key, decryptor.counter, input.Remaining(), messageSize);
         spec == Opened((done + plain) + o'.written, o'.status)
  {
    ghost var next := input.Remaining();
    OpenStreamNext(decryptor.aead, decryptor.key, decryptor.counter, rem, messageSize, buf[..], next);
    var outcome := decryptor.OpenNextInPlace(buf);
    if outcome.Err? {
      return Err(outcome.error), [];
    }
    output.WriteAll(outcome.value);
    r, plain := Ok(false), outcome.value;
    assert (w0 + done) + plain == w0 + (done + plain);
    ghost var o' := OpenStream(decryptor.aead, decryptor.key, decryptor.counter, next, messageSize);
    assert done + (plain + o'.written) == (done + plain) + o'.written;
    assert input.Remaining() == next;
  }

  /**
   * One pass of `decrypt_stream`'s loop: read up to `messageSize + TAG_SIZE`
   * bytes, then open and write a "next" chunk when the block is full, or the
   * "last" chunk (and report it, `Ok(true)`) when it is short. `plain` is
   * what the pass wrote; the contract is the loop's invariant, carried from
   * one pass to the next.
   */
  method DecryptChunk(decryptor: Decryptor, input: Reader, output: Writer, buf: array<byte>, messageSize: nat,
                      ghost spec: Opened, ghost done: Bytes, ghost s0: seq<Step>, ghost w0: Bytes)
    returns (r: Result<bool, Error>, ghost plain: Bytes)
    requires OpenStripsTag(decryptor.aead) && input.Valid() && IsSuffix(input.script, s0)
    requires !decryptor.finished && buf.Length == messageSize + TAG_SIZE
    requires output.written == w0 + done
    requires var o := OpenStream(decryptor.aead, decryptor.key, decryptor.counter, input.Remaining(), messageSize);
      spec == Opened(done + o.written, o.status)
    modifies input, output, decryptor, buf
    ensures input.Valid() && IsSuffix(input.script, s0)
    ensures output.written == w0 + (done + plain)
    ensures r.Err? ==> plain == [] && ((r.error.Io? && !NoFaults(s0)) || (spec.status == Err(r.error) && spec.written == done))
    ensures r.Ok? && r.value ==> input.Remaining() == [] && spec == Opened(done + plain, Ok(()))
    ensures r.Ok? && !r.value ==>
      && !decryptor.finished && |input.Remaining()| < |old(input.Remaining())|
      && var o' := OpenStream(decryptor.aead, decryptor.key, decryptor.counter, input.Remaining(), messageSize);
         spec == Opened((done + plain) + o'.written, o'.status)
  {
    ghost var rem := input.Remaining();
    var got := ReadBlock(input, buf, 0, buf.Length, s0);
    if got.Err? {
      return Err(Io(got.error)), [];
    }
    var n := got.value;
    if n < buf.Length {
      assert buf[0..n] == buf[..n];
      r, plain := OpenLastChunk(decryptor, input, output, buf, n, messageSize, spec, done, s0, w0, rem);
    } else {
      assert buf[0..buf.Length] == buf[..];
      r, plain := OpenNextChunk(decryptor, input, output, buf, messageSize, spec, done, s0, w0, rem);
    }
  }

  /**
   * `decrypt_stream`: reads blocks of `messageSize + TAG_SIZE` bytes, opens
   * each full block as "next" and the first short one as "last", and writes
   * each plaintext. Unless the source faults, the outcome and the output are
   * those `OpenStream` gives for the source's bytes; in every case what was
   * written is a prefix of that output.
   */
  method DecryptStream(aead: Aead, key: Aes256Siv, input: Reader, output: Writer, messageSize: nat)
    returns (r: Result<(), Error>)
    requires OpenStripsTag(aead) && input.Valid()
    modifies input, output
    ensures input.Valid() && IsSuffix(input.script, old(input.script))
    ensures var o := OpenStream(aead, key, 0, old(input.Remaining()), messageSize);
      NoFaults(old(input.script)) ==> r == o.status && output.written == old(output.written) + o.written
    ensures var o := OpenStream(aead, key, 0, old(input.Remaining()), messageSize);
      r.Ok? ==> o.status.Ok? && output.written == old(output.written) + o.written && input.Remaining() == []
    ensures var o := OpenStream(aead, key, 0, old(input.Remaining()), messageSize);
      IsPrefix(old(output.written), output.written) && IsPrefix(output.written[|old(output.written)|..], o.written)
    ensures r.Err? && r.error.Io? ==> !NoFaults(old(input.script))
  {
    ghost var ct := input.Remaining();
    ghost var w0 := output.written;
    ghost var s0 := input.script;
    ghost var done: Bytes := [];
    ghost var spec := OpenStream(aead, key, 0, ct, messageSize);
    var decryptor := new Decryptor(aead, key);
    var buf := new byte[messageSize + TAG_SIZE];
    while true
      invariant input.Valid() && IsSuffix(input.script, s0)
      invariant output.written == w0 + done
      invariant var o := OpenStream(aead, key, decryptor.counter, input.Remaining(), messageSize);
        spec == Opened(done + o.written, o.status)
      invariant !decryptor.finished && buf.Length == messageSize + TAG_SIZE
      invariant decryptor.aead == aead && decryptor.key == key
      decreases |input.Remaining()|
    {
      var step, plain := DecryptChunk(decryptor, input, output, buf, messageSize, spec, done, s0, w0);
      if step.Err? {
        assert output.written[|w0|..] == done;
        return Err(step.error);
      }
      if step.value {
        assert output.written[|w0|..] == done + plain;
        return Ok(());
      }
      done := done + plain;
    }
  }
}
