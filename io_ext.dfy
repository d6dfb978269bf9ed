/**
 * `ReadExt::read_until` and `WriteExt::write` of `src/helpers/io_ext.rs`:
 * reading a source byte by byte into a bounded buffer until a pattern ends.
 */
module IoExt {
  import opened Wrappers
  import opened Bytes
  import opened IoError
  import opened Io

  /** What `read_until` can see of `input` with a buffer of `capacity` bytes. */
  function Window(input: seq<byte>, capacity: nat): (w: seq<byte>)
    ensures |w| == Min(capacity, |input|) && w == input[..|w|]
  {
    input[..Min(capacity, |input|)]
  }

  /**
   * Where `read_until` stops matching in `w`: the first position, after at
   * least one byte, at which `pat` ends; None when there is none.
   */
  function UntilEnd(w: seq<byte>, pat: seq<byte>): (r: Option<nat>)
    ensures r.Some? ==> 1 <= r.value <= |w| && EndsAt(w, r.value, pat)
    ensures r.Some? ==> forall k | 1 <= k < r.value :: !EndsAt(w, k, pat)
    ensures r.None? ==> forall k | 1 <= k <= |w| :: !EndsAt(w, k, pat)
  {
    if w == [] then None else FirstEnd(w, pat, 1)
  }

  lemma UntilEndAt(w: seq<byte>, pat: seq<byte>, k: nat)
    requires 1 <= k <= |w| && EndsAt(w, k, pat)
    requires forall j | 1 <= j < k :: !EndsAt(w, j, pat)
    ensures UntilEnd(w, pat) == Some(k)
  {
  }

  lemma UntilEndNone(w: seq<byte>, pat: seq<byte>)
    requires forall j | 1 <= j <= |w| :: !EndsAt(w, j, pat)
    ensures UntilEnd(w, pat) == None
  {
  }

  /** The check `read_until` makes on its buffer is whether `pat` ends at `pos` of what it has read. */
  lemma BufferEndsAt(w: seq<byte>, filled: seq<byte>, pos: nat, pat: seq<byte>)
    requires pos <= |w| && pos <= |filled| && filled[..pos] == w[..pos]
    ensures EndsAt(w, pos, pat) <==> pos >= |pat| && filled[pos - |pat|..pos] == pat
  {
    if pos >= |pat| {
      assert filled[..pos][pos - |pat|..] == filled[pos - |pat|..pos];
    }
  }

  /**
   * `read_until(buf, pat)`: reads one byte at a time into `buf` and stops
   * right after the first occurrence of `pat` ends (Some of the bytes read),
   * when `buf` is full, or at the end of the stream (None for both). A read
   * error other than the end of the stream is passed on. Nothing past the
   * match is consumed, and the buffer starts with exactly the bytes consumed.
   */
  method ReadUntil(src: Source, buf: array<byte>, pat: seq<byte>) returns (r: Result<Option<nat>, ErrorKind>)
    modifies src, buf
    ensures EndsWith(old(src.input), src.input)
    ensures |old(src.input)| - |src.input| <= buf.Length
    ensures forall i | 0 <= i < |old(src.input)| - |src.input| :: buf[i] == old(src.input)[i]
    ensures forall i | |old(src.input)| - |src.input| <= i < buf.Length :: buf[i] == old(buf[i])
    ensures var w := Window(old(src.input), buf.Length);
      UntilEnd(w, pat).Some? ==> r == Ok(UntilEnd(w, pat)) && |old(src.input)| - |src.input| == UntilEnd(w, pat).value
    ensures var w := Window(old(src.input), buf.Length);
      UntilEnd(w, pat).None? ==>
        |old(src.input)| - |src.input| == |w| &&
        r == if |w| == buf.Length || src.failure.None? || src.failure == Some(UnexpectedEof) then Ok(None) else Err(src.failure.value)
  {
    ghost var input0 := src.input;
    ghost var w := Window(input0, buf.Length);
    var pos := 0;
    while pos < buf.Length
      invariant pos <= buf.Length && pos <= |input0| && src.input == input0[pos..]
      invariant forall i | 0 <= i < pos :: buf[i] == input0[i]
      invariant forall i | pos <= i < buf.Length :: buf[i] == old(buf[i])
      invariant forall k | 1 <= k <= pos :: !EndsAt(w, k, pat)
      decreases buf.Length - pos
    {
      var next, e := src.ReadExact(1);
      if e.Err? {
        assert |input0| - |src.input| == pos && pos == |input0|;
        assert w == input0;
        UntilEndNone(w, pat);
        return if e.error == UnexpectedEof then Ok(None) else Err(e.error);
      }
      buf[pos] := next[0];
      pos := pos + 1;
      assert buf[..pos] == w[..pos];
      BufferEndsAt(w, buf[..], pos, pat);
      if pos >= |pat| && buf[pos - |pat|..pos] == pat {
        UntilEndAt(w, pat, pos);
        assert |input0| - |src.input| == pos;
        return Ok(Some(pos));
      }
    }
    assert w == input0[..buf.Length];
    UntilEndNone(w, pat);
    assert |input0| - |src.input| == pos;
    r := Ok(None);
  }

  /** `WriteExt::write`: all of `data`, or the sink's error. */
  method Write(sink: Sink, data: seq<byte>) returns (r: Result<(), ErrorKind>)
    modifies sink
    ensures r.Ok? <==> sink.failure.None?
    ensures r.Ok? ==> sink.output == old(sink.output) + data
    ensures r.Err? ==> sink.output == old(sink.output) && r.error == sink.failure.value
  {
    r := sink.WriteAll(data);
  }
}
