/**
 * The byte sources and sinks the core reads from and writes to, and the two
 * loops that gather bytes from a source: the crate's `read_chunk` (its blanket
 * extension of `std::io::Read`) and std's `read_exact`, which header decoding
 * uses through byteorder's `read_u32`.
 */
module ByteIo {
  import opened Wrappers
  import opened Common

  type Positive = n: nat | 1 <= n witness 1

  /**
   * What the next `read` call on a source does: hand back at most `cap`
   * bytes (and at least one, unless the source is exhausted), or fail.
   * Once a source's script is used up, every read hands back as much as fits.
   */
  datatype Step = Deliver(cap: Positive) | Fail(error: IoError)

  /** A failure that is not a transient interruption. */
  predicate IsFault(s: Step) {
    s.Fail? && s.error != Interrupted
  }

  predicate NoFaults(script: seq<Step>) {
    forall i {:trigger IsFault(script[i])} :: 0 <= i < |script| ==> !IsFault(script[i])
  }

  lemma NoFaultsSuffix(s: seq<Step>, t: seq<Step>)
    requires IsSuffix(s, t) && NoFaults(t)
    ensures NoFaults(s)
  {
    forall i | 0 <= i < |s| ensures !IsFault(s[i]) {
      assert s[i] == t[|t| - |s| + i];
    }
  }

  /**
   * A byte source: the bytes it will yield, how many it has yielded, and the
   * schedule of its reads (the shape of a reader that splits its data
   * arbitrarily and may be interrupted or fail).
   */
  class Reader {
    const data: Bytes
    var pos: nat
    var script: seq<Step>

    ghost predicate Valid()
      reads this
    {
      pos <= |data|
    }

    /** The bytes not yet read. */
    function Remaining(): Bytes
      reads this
      requires Valid()
    {
      data[pos..]
    }

    constructor (data: Bytes, script: seq<Step>)
      ensures Valid() && this.data == data && pos == 0 && this.script == script
    {
      this.data := data;
      pos := 0;
      this.script := script;
    }

    /**
     * One `Read::read` into `buf[lo..hi]`: consumes one scheduled step; on
     * success copies the next bytes of the source into the front of the
     * window, and returns 0 only when the source is exhausted or the window
     * is empty; on failure changes nothing else.
     */
    method Read(buf: array<byte>, lo: nat, hi: nat) returns (r: Result<nat, IoError>)
      requires Valid() && lo <= hi <= buf.Length
      modifies this, buf
      ensures Valid()
      ensures script == if old(script) == [] then [] else old(script)[1..]
      ensures r.Err? ==> old(script) != [] && old(script)[0] == Fail(r.error)
      ensures r.Err? ==> pos == old(pos) && buf[..] == old(buf[..])
      ensures r.Ok? ==> old(script) == [] || old(script)[0].Deliver?
      ensures r.Ok? ==> lo + r.value <= hi && pos == old(pos) + r.value
      ensures r.Ok? ==> buf[..lo] == old(buf[..lo]) && buf[lo + r.value..] == old(buf[lo + r.value..])
      ensures r.Ok? ==> buf[lo..lo + r.value] == data[old(pos)..pos]
      ensures r.Ok? ==> (r.value == 0 <==> (old(pos) == |data| || lo == hi))
    {
      var cap := hi - lo;
      if script != [] {
        var step := script[0];
        script := script[1..];
        match step
        case Fail(e) =>
          return Err(e);
        case Deliver(c) =>
          cap := Min(c, cap);
      }
      var n := Min(cap, |data| - pos);
      forall i | lo <= i < lo + n {
        buf[i] := data[pos + i - lo];
      }
      pos := pos + n;
      r := Ok(n);
    }
  }

  /** A byte sink; `write_all` always succeeds in this model. */
  class Writer {
    var written: Bytes

    constructor ()
      ensures written == []
    {
      written := [];
    }

    method WriteAll(bytes: Bytes)
      modifies this
      ensures written == old(written) + bytes
    {
      written := written + bytes;
    }
  }

  /**
   * The state `read_chunk`'s loop keeps while it fills `buf[lo..hi]` from a
   * source that had `rem` left at position `p0` and schedule `s0`: the window
   * `[lo, cur)` holds the next bytes of the source, the buffer outside
   * `[lo, hi)` is as it was (`front`, `back`), and the reads taken so far
   * include no fault.
   */
  ghost predicate Filling(input: Reader, buf: array<byte>, lo: nat, cur: nat, hi: nat,
                          s0: seq<Step>, p0: nat, rem: Bytes, front: Bytes, back: Bytes)
    reads input, buf
  {
    && lo <= cur <= hi <= buf.Length && input.Valid()
    && input.pos == p0 + (cur - lo) && cur - lo <= |rem| && input.data[p0..] == rem
    && buf[lo..cur] == rem[..cur - lo]
    && buf[..lo] == front && buf[hi..] == back
    && IsSuffix(input.script, s0) && NoFaults(s0[..|s0| - |input.script|])
  }

  /**
   * One pass of `read_chunk`'s loop: a single `read` into `buf[cur..hi]`.
   * A success of n bytes extends the window by n; an interruption leaves it
   * as it was; any other failure is the first fault of the schedule.
   */
  method ReadStep(input: Reader, buf: array<byte>, lo: nat, cur: nat, hi: nat,
                  ghost s0: seq<Step>, ghost p0: nat, ghost rem: Bytes, ghost front: Bytes, ghost back: Bytes)
    returns (r: Result<nat, IoError>)
    requires Filling(input, buf, lo, cur, hi, s0, p0, rem, front, back)
    modifies input, buf
    ensures input.script == if old(input.script) == [] then [] else old(input.script)[1..]
    ensures r.Err? ==> old(input.script) != []
    ensures r.Ok? ==> cur + r.value <= hi && Filling(input, buf, lo, cur + r.value, hi, s0, p0, rem, front, back)
    ensures r.Ok? && r.value == 0 && cur < hi ==> input.pos == |input.data|
    ensures r == Err(Interrupted) ==> Filling(input, buf, lo, cur, hi, s0, p0, rem, front, back)
    ensures r.Err? && r.error != Interrupted ==>
      && input.Valid() && IsSuffix(input.script, s0) && buf[..lo] == front && buf[hi..] == back
      && var k := |s0| - |input.script| - 1;
         0 <= k && IsFault(s0[k]) && r.error == s0[k].error && NoFaults(s0[..k])
  {
    ghost var before := buf[..];
    ghost var sBefore := input.script;
    r := input.Read(buf, cur, hi);
    ScriptStep(s0, sBefore, input.script);
    if r.Ok? {
      WindowStep(before, buf[..], lo, cur, r.value, hi, rem);
    }
  }

  /** One step taken from what is left of a schedule `s0` whose front so far has no fault. */
  lemma ScriptStep(s0: seq<Step>, before: seq<Step>, after: seq<Step>)
    requires IsSuffix(before, s0) && NoFaults(s0[..|s0| - |before|])
    requires after == if before == [] then [] else before[1..]
    ensures IsSuffix(after, s0)
    ensures before != [] ==> s0[..|s0| - |after|] == s0[..|s0| - |before|] + [before[0]]
    ensures before != [] ==> s0[|s0| - |after| - 1] == before[0]
    ensures before != [] && !IsFault(before[0]) ==> NoFaults(s0[..|s0| - |after|])
  {
    if before != [] {
      assert before[0] == s0[|s0| - |before|];
      assert after == s0[|s0| - |after|..];
      assert s0[..|s0| - |after|] == s0[..|s0| - |before|] + [before[0]];
    }
  }

  /** A read of n bytes at `cur` extends the filled window `[lo, cur)` and keeps everything outside `[lo, hi)`. */
  lemma WindowStep(before: Bytes, after: Bytes, lo: nat, cur: nat, n: nat, hi: nat, rem: Bytes)
    requires lo <= cur && cur + n <= hi <= |before| == |after| && cur - lo + n <= |rem|
    requires before[lo..cur] == rem[..cur - lo]
    requires after[..cur] == before[..cur] && after[cur + n..] == before[cur + n..]
    requires after[cur..cur + n] == rem[cur - lo..cur - lo + n]
    ensures after[lo..cur + n] == rem[..cur + n - lo]
    ensures after[..lo] == before[..lo] && after[hi..] == before[hi..]
  {
    assert after[lo..cur] == before[lo..cur];
    assert after[lo..cur + n] == after[lo..cur] + after[cur..cur + n];
    assert rem[..cur + n - lo] == rem[..cur - lo] + rem[cur - lo..cur - lo + n];
    assert after[..lo] == after[..cur][..lo];
    assert after[hi..] == after[cur + n..][hi - cur - n..];
  }

  /**
   * `read_chunk`'s loop: reads into `buf[cur..hi]`, retrying on
   * `Interrupted`, until the window is full or the source reports its end
   * (a success of zero bytes), or a read fails otherwise.
   */
  method Fill(input: Reader, buf: array<byte>, lo: nat, hi: nat,
              ghost s0: seq<Step>, ghost p0: nat, ghost rem: Bytes, ghost front: Bytes, ghost back: Bytes)
    returns (r: Result<nat, IoError>)
    requires Filling(input, buf, lo, lo, hi, s0, p0, rem, front, back)
    modifies input, buf
    ensures r.Ok? ==> lo + r.value <= hi && Filling(input, buf, lo, lo + r.value, hi, s0, p0, rem, front, back)
    ensures r.Ok? ==> lo + r.value == hi || input.pos == |input.data|
    ensures r.Err? ==>
      && input.Valid() && IsSuffix(input.script, s0) && buf[..lo] == front && buf[hi..] == back
      && var k := |s0| - |input.script| - 1;
         0 <= k && IsFault(s0[k]) && r.error == s0[k].error && NoFaults(s0[..k])
  {
    var cur: nat := lo;
    var atEnd := false;
    // compared with `true` so that the verifier keeps the invariant folded
    // and matches it against ReadStep's postcondition as a whole
    while cur < hi && !atEnd
      invariant Filling(input, buf, lo, cur, hi, s0, p0, rem, front, back) == true
      invariant atEnd ==> input.pos == |input.data|
      decreases |input.script|, hi - cur, if atEnd then 0 else 1
    {
      var res := ReadStep(input, buf, lo, cur, hi, s0, p0, rem, front, back);
      match res
      case Ok(n) =>
        if n == 0 {
          atEnd := true;
        } else {
          cur := cur + n;
        }
      case Err(e) =>
        if e != Interrupted {
          return Err(e);
        }
    }
    r := Ok(cur - lo);
  }

  /** At the loop's exit the window holds min(window, remaining) bytes: the next ones of the source. */
  lemma FilledWindow(data: Bytes, pos: nat, p0: nat, lo: nat, cur: nat, hi: nat, rem: Bytes)
    requires lo <= cur <= hi && pos <= |data| && pos == p0 + (cur - lo) && cur - lo <= |rem| && data[p0..] == rem
    requires cur == hi || pos == |data|
    ensures cur - lo == Min(hi - lo, |rem|)
    ensures data[pos..] == rem[cur - lo..]
  {
    assert data[pos..] == data[p0..][cur - lo..];
  }

  /**
   * `read_chunk`: fills `buf[lo..hi]` from the source, retrying on
   * `Interrupted`, until the window is full or the source reports its end.
   * Whatever way the source splits its data, a success returns
   * min(window, remaining) with exactly the next bytes of the source in
   * the window; any other failure is returned at once.
   */
  method ReadChunk(input: Reader, buf: array<byte>, lo: nat, hi: nat) returns (r: Result<nat, IoError>)
    requires input.Valid() && lo <= hi <= buf.Length
    modifies input, buf
    ensures input.Valid() && IsSuffix(input.script, old(input.script))
    ensures r.Ok? ==> r.value == Min(hi - lo, |old(input.Remaining())|)
    ensures r.Ok? ==> input.pos == old(input.pos) + r.value
    ensures r.Ok? ==> buf[lo..lo + r.value] == old(input.Remaining())[..r.value]
    ensures r.Ok? ==> input.Remaining() == old(input.Remaining())[r.value..]
    ensures buf[..lo] == old(buf[..lo]) && buf[hi..] == old(buf[hi..])
    ensures r.Err? ==>
      var k := |old(input.script)| - |input.script| - 1;
      0 <= k && IsFault(old(input.script)[k]) && r.error == old(input.script)[k].error
      && NoFaults(old(input.script)[..k])
  {
    ghost var s0 := input.script;
    ghost var rem := input.Remaining();
    ghost var p0 := input.pos;
    ghost var front := buf[..lo];
    ghost var back := buf[hi..];
    assert s0[..|s0| - |input.script|] == [];
    r := Fill(input, buf, lo, hi, s0, p0, rem, front, back);
    if r.Ok? {
      FilledWindow(input.data, input.pos, p0, lo, lo + r.value, hi, rem);
    }
  }

  /**
   * std's `read_exact`: exactly the next `n` bytes of the source, or
   * `UnexpectedEof` when fewer remain.
   */
  method ReadExact(input: Reader, n: nat) returns (r: Result<Bytes, IoError>)
    requires input.Valid()
    modifies input
    ensures input.Valid() && IsSuffix(input.script, old(input.script))
    ensures r.Ok? ==> n <= |old(input.Remaining())| && r.value == old(input.Remaining())[..n]
    ensures r.Ok? ==> input.pos == old(input.pos) + n
    ensures r.Err? ==> (|old(input.Remaining())| < n && r.error == UnexpectedEof) || !NoFaults(old(input.script))
    ensures NoFaults(old(input.script)) && n <= |old(input.Remaining())| ==> r.Ok?
  {
    var buf := new byte[n];
    var got := ReadChunk(input, buf, 0, n);
    if got.Err? {
      return Err(got.error);
    }
    if got.value < n {
      return Err(UnexpectedEof);
    }
    assert buf[..] == buf[0..n];
    r := Ok(buf[..]);
  }
}
