/**
 * `ChunkedBodyReader` and `ChunkedBodyWriter` of `src/chunked_body.rs`: the
 * chunked transfer coding as explicit state machines driven over a stream.
 * A transient stream error leaves the exact sub-state (partial line buffer,
 * offset, remaining count) in the state field, so the identical call resumes.
 * The reader is proved to follow `ChunkedReaderSpec.Feed` and the writer
 * `ChunkedWriterSpec.Emission`, whatever the stream does.
 */
module ChunkedBody {
  import opened Wrappers
  import opened Bytes
  import opened Numbers
  import opened IoError
  import opened Streams
  import R = ChunkedReaderSpec
  import W = ChunkedWriterSpec

  /** The bytes a stream gave up between two of its states. */
  function Taken(before: seq<byte>, after: seq<byte>): seq<byte>
    requires |after| <= |before|
  {
    before[..|before| - |after|]
  }

  lemma TakenOf(before: seq<byte>, taken: seq<byte>, after: seq<byte>)
    requires before == taken + after
    ensures EndsWith(before, after) && Taken(before, after) == taken
  {
    assert before[|before| - |after|..] == after;
  }

  lemma TakenSplit(a: seq<byte>, b: seq<byte>, c: seq<byte>)
    requires EndsWith(a, b) && EndsWith(b, c)
    ensures EndsWith(a, c) && Taken(a, c) == Taken(a, b) + Taken(b, c)
  {
    assert a == Taken(a, b) + b;
    assert b == Taken(b, c) + c;
    assert a == (Taken(a, b) + Taken(b, c)) + c;
    TakenOf(a, Taken(a, b) + Taken(b, c), c);
  }

  /** A pending line stays pending when the bytes it gains complete no CRLF. */
  lemma PendingExtends(line: seq<byte>, pos: nat, filled: seq<byte>, p: nat, capacity: nat)
    requires R.LinePending(line, pos, capacity) && |filled| == capacity && pos <= p <= capacity
    requires filled[..pos] == line[..pos]
    requires forall k | pos < k <= p :: !EndsAt(filled, k, CRLF)
    ensures R.LinePending(filled, p, capacity)
  {
    forall k | 0 < k <= p
      ensures !EndsAt(filled, k, CRLF)
    {
      if k <= pos {
        assert !EndsAt(line, k, CRLF);
        assert filled[..k] == line[..k];
      }
    }
  }

  /** The end of a pending line's stored part is no CRLF, whatever follows it. */
  lemma PendingNotEnded(line: seq<byte>, pos: nat, filled: seq<byte>, capacity: nat)
    requires R.LinePending(line, pos, capacity) && |filled| == capacity
    requires filled[..pos] == line[..pos]
    ensures !EndsAt(filled, pos, CRLF)
  {
    if pos > 0 {
      assert !EndsAt(line, pos, CRLF);
    }
  }

  /** A read that stops short of a CRLF leaves the size line pending with what arrived. */
  lemma SizeLinePaused(line: seq<byte>, pos: nat, filled: seq<byte>, p: nat)
    requires R.LinePending(line, pos, R.SIZE_LINE_CAPACITY) && |filled| == R.SIZE_LINE_CAPACITY
    requires pos <= p <= |filled| && filled[..pos] == line[..pos] && filled[p..] == line[p..]
    requires forall k | pos < k < p :: !EndsAt(filled, k, CRLF)
    requires pos < p ==> !EndsAt(filled, p, CRLF)
    ensures R.LinePending(filled, p, R.SIZE_LINE_CAPACITY)
    ensures R.Feed(R.Header(line, pos), filled[pos..p]) == R.Running(R.Header(filled, p), [])
  {
    PendingExtends(line, pos, filled, p, R.SIZE_LINE_CAPACITY);
    R.HeaderScan(line, pos, filled, p);
    assert filled[..p] + line[p..] == filled;
  }

  /** A read that ends on a CRLF completes the size line. */
  lemma SizeLineEnded(line: seq<byte>, pos: nat, filled: seq<byte>, p: nat)
    requires R.LinePending(line, pos, R.SIZE_LINE_CAPACITY) && |filled| == R.SIZE_LINE_CAPACITY
    requires pos <= p <= |filled| && filled[..pos] == line[..pos]
    requires forall k | pos < k < p :: !EndsAt(filled, k, CRLF)
    requires EndsAt(filled, p, CRLF)
    ensures 2 <= p && R.Feed(R.Header(line, pos), filled[pos..p]) == R.AfterSizeLine(filled[..p - 2])
  {
    PendingNotEnded(line, pos, filled, R.SIZE_LINE_CAPACITY);
    R.HeaderComplete(line, pos, filled, p);
  }

  /** The trailer counterpart of `SizeLinePaused`. */
  lemma TrailerPaused(crlf: seq<byte>, pos: nat, isLast: bool, filled: seq<byte>, p: nat)
    requires R.LinePending(crlf, pos, 2) && |filled| == 2
    requires pos <= p <= |filled| && filled[..pos] == crlf[..pos] && filled[p..] == crlf[p..]
    requires forall k | pos < k < p :: !EndsAt(filled, k, CRLF)
    requires pos < p ==> !EndsAt(filled, p, CRLF)
    ensures R.LinePending(filled, p, 2)
    ensures R.Feed(R.Trailer(crlf, pos, isLast), filled[pos..p]) == R.Running(R.Trailer(filled, p, isLast), [])
  {
    PendingExtends(crlf, pos, filled, p, 2);
    R.TrailerScan(crlf, pos, isLast, filled, p);
    assert filled[..p] + crlf[p..] == filled;
  }

  /** The trailer counterpart of `SizeLineEnded`. */
  lemma TrailerEnded(crlf: seq<byte>, pos: nat, isLast: bool, filled: seq<byte>, p: nat)
    requires R.LinePending(crlf, pos, 2) && |filled| == 2
    requires pos <= p <= |filled| && filled[..pos] == crlf[..pos]
    requires forall k | pos < k < p :: !EndsAt(filled, k, CRLF)
    requires EndsAt(filled, p, CRLF)
    ensures R.Feed(R.Trailer(crlf, pos, isLast), filled[pos..p]) == R.Running(if isLast then R.Done else R.READER_START, [])
  {
    PendingNotEnded(crlf, pos, filled, 2);
    R.TrailerComplete(crlf, pos, isLast, filled, p);
  }

  /** What a trailer read leaves: the trailer pending with what arrived, or the next state once the CRLF came. */
  lemma TrailerRead(crlf: seq<byte>, pos: nat, isLast: bool, filled: seq<byte>, p: nat, ended: bool)
    requires R.LinePending(crlf, pos, 2) && |filled| == 2
    requires pos <= p <= |filled| && filled[..pos] == crlf[..pos]
    requires !ended ==> filled[p..] == crlf[p..]
    requires forall k | pos < k < p :: !EndsAt(filled, k, CRLF)
    requires ended ==> EndsAt(filled, p, CRLF)
    requires !ended && pos < p ==> !EndsAt(filled, p, CRLF)
    ensures var next := if !ended then R.Trailer(filled, p, isLast) else if isLast then R.Done else R.READER_START;
      R.ReaderValid(next) && R.Feed(R.Trailer(crlf, pos, isLast), filled[pos..p]) == R.Running(next, [])
  {
    if ended {
      TrailerEnded(crlf, pos, isLast, filled, p);
    } else {
      TrailerPaused(crlf, pos, isLast, filled, p);
    }
  }

  /**
   * One more step of the reader after the bytes already taken: the decoder's
   * view of everything taken is its view of the earlier part continued.
   */
  lemma ReaderProgress(s0: R.ReaderChunkState, p0: seq<byte>, p1: seq<byte>, p2: seq<byte>, mid: R.ReaderChunkState, out0: seq<byte>)
    requires EndsWith(p0, p1) && EndsWith(p1, p2)
    requires R.Feed(s0, Taken(p0, p1)) == R.Running(mid, out0)
    ensures EndsWith(p0, p2)
    ensures R.Feed(s0, Taken(p0, p2)) == R.WithPayload(out0, R.Feed(mid, Taken(p1, p2)))
  {
    TakenSplit(p0, p1, p2);
    R.FeedAppend(s0, Taken(p0, p1), Taken(p1, p2));
  }

  /** Two writes into adjacent stretches of a buffer make one write into their union. */
  lemma Splice(o: seq<byte>, a: seq<byte>, b: seq<byte>, pos: nat, mid: nat, end: nat)
    requires pos <= mid <= end <= |o| == |a| == |b|
    requires a == o[..pos] + a[pos..mid] + o[mid..]
    requires b == a[..mid] + b[mid..end] + a[end..]
    ensures b == o[..pos] + b[pos..end] + o[end..]
    ensures b[pos..end] == a[pos..mid] + b[mid..end]
  {
    assert a[..mid] == o[..pos] + a[pos..mid];
    assert a[end..] == o[end..];
    assert b[pos..end] == a[pos..mid] + b[mid..end];
  }

  class ChunkedBodyReader {
    var state: R.ReaderChunkState

    ghost predicate Valid()
      reads this
    {
      R.ReaderValid(state)
    }

    /** `new`: awaits a size line with an empty 18-byte buffer at offset 0. */
    constructor ()
      ensures state == R.READER_START && Valid()
    {
      state := R.READER_START;
    }

    /** `size`: the length of a chunked body is not known in advance. */
    function Size(): (r: Option<nat>)
      ensures r.None?
    {
      None
    }

    /**
     * `receive_chunk_size`: completes the size line; a stream error stores the
     * partial line, an unparsable line leaves the state as it was.
     */
    method ReceiveChunkSize(line: seq<byte>, pos: nat, conn: ReadableStream) returns (r: Result<(), ErrorKind>)
      requires Valid() && R.ReaderValid(R.Header(line, pos))
      modifies this, conn
      ensures Valid()
      ensures EndsWith(old(conn.pending), conn.pending)
      ensures R.Feed(R.Header(line, pos), Taken(old(conn.pending), conn.pending)) == R.Running(state, [])
           || (R.Feed(R.Header(line, pos), Taken(old(conn.pending), conn.pending)) == R.Malformed
               && r == Err(InvalidData) && state == old(state))
      ensures r.Err? ==> conn.lastRead == r || R.Feed(R.Header(line, pos), Taken(old(conn.pending), conn.pending)) == R.Malformed
      ensures r.Err? ==> state.Header? || state == old(state)
      ensures conn.budget <= old(conn.budget) && (r.Ok? ==> conn.budget < old(conn.budget))
    {
      var filled, p, res := conn.ReadUntil(line, pos, CRLF);
      TakenOf(old(conn.pending), filled[pos..p], conn.pending);
      if res.Err? {
        SizeLinePaused(line, pos, filled, p);
        state := R.Header(filled, p);
        return res;
      }
      SizeLineEnded(line, pos, filled, p);
      // `String::from_utf8` then `u64::from_str_radix(_, 16)`: a byte that is
      // not ASCII is never a hexadecimal digit, so the parse alone decides.
      var size := ParseUnsigned(filled[..p - 2], 16, U64_LIMIT);
      if size.None? {
        return Err(InvalidData);
      }
      state := if size.value == 0 then R.Trailer(R.EMPTY_CRLF, 0, true) else R.Payload(size.value);
      r := Ok(());
    }

    /**
     * `receive_chunk_payload`: asks for at most min(remaining, free space) bytes;
     * the remaining count drops by what arrived even when the stream fails.
     */
    method ReceiveChunkPayload(remaining: nat, buffer: array<byte>, pos: nat, conn: ReadableStream)
      returns (newPos: nat, r: Result<(), ErrorKind>)
      requires 0 < remaining < U64_LIMIT && pos < buffer.Length
      modifies this, buffer, conn
      ensures Valid()
      ensures pos <= newPos <= buffer.Length && newPos - pos <= remaining
      ensures buffer[..] == old(buffer[..])[..pos] + buffer[pos..newPos] + old(buffer[..])[newPos..]
      ensures EndsWith(old(conn.pending), conn.pending)
      ensures buffer[pos..newPos] == Taken(old(conn.pending), conn.pending)
      ensures state == if newPos - pos == remaining then R.Trailer(R.EMPTY_CRLF, 0, false) else R.Payload(remaining - (newPos - pos))
      ensures R.Feed(R.Payload(remaining), buffer[pos..newPos]) == R.Running(state, buffer[pos..newPos])
      ensures r == conn.lastRead
      ensures conn.budget <= old(conn.budget) && (r.Ok? ==> conn.budget < old(conn.budget))
    {
      var toReceive := if remaining > buffer.Length - pos then buffer.Length - pos else remaining;
      newPos, r := conn.Read(buffer, pos, pos + toReceive);
      TakenOf(old(conn.pending), buffer[pos..newPos], conn.pending);
      var received := newPos - pos;
      state := if received == remaining then R.Trailer(R.EMPTY_CRLF, 0, false) else R.Payload(remaining - received);
      ghost var got := buffer[pos..newPos];
      assert R.Feed(R.Payload(remaining), got) == R.Running(state, got) by {
        R.PayloadFeed(remaining, got);
      }
    }

    /**
     * `receive_chunk_trailer`: completes the CRLF after a chunk; a stream error
     * stores the partial trailer; the last chunk's trailer ends the body.
     */
    method ReceiveChunkTrailer(crlf: seq<byte>, pos: nat, isLast: bool, conn: ReadableStream) returns (r: Result<(), ErrorKind>)
      requires R.ReaderValid(R.Trailer(crlf, pos, isLast))
      modifies this, conn
      ensures Valid()
      ensures EndsWith(old(conn.pending), conn.pending)
      ensures R.Feed(R.Trailer(crlf, pos, isLast), Taken(old(conn.pending), conn.pending)) == R.Running(state, [])
      ensures r.Ok? ==> state == if isLast then R.Done else R.READER_START
      ensures r.Err? ==> state.Trailer?
      ensures r == conn.lastRead
      ensures conn.budget <= old(conn.budget) && (r.Ok? ==> conn.budget < old(conn.budget))
    {
      var filled, p, res := conn.ReadUntil(crlf, pos, CRLF);
      TakenOf(old(conn.pending), filled[pos..p], conn.pending);
      TrailerRead(crlf, pos, isLast, filled, p, res.Ok?);
      if res.Err? {
        state := R.Trailer(filled, p, isLast);
        return res;
      }
      state := if isLast then R.Done else R.READER_START;
      r := res;
    }

    /**
     * One pass of `read`'s loop: the step the current state calls for. The
     * new state and the payload it delivers at `buffer[pos..newPos]` are what
     * the decoder makes of the bytes taken, unless they end in a malformed
     * size line; Ok(true) is returned exactly when the body was already done.
     */
    method ReadStep(buffer: array<byte>, pos: nat, conn: ReadableStream) returns (newPos: nat, r: Result<bool, ErrorKind>)
      requires Valid() && pos < buffer.Length
      modifies this, buffer, conn
      ensures Valid()
      ensures pos <= newPos <= buffer.Length
      ensures buffer[..] == old(buffer[..])[..pos] + buffer[pos..newPos] + old(buffer[..])[newPos..]
      ensures EndsWith(old(conn.pending), conn.pending)
      ensures R.Feed(old(state), Taken(old(conn.pending), conn.pending)) == R.Running(state, buffer[pos..newPos])
           || (R.Feed(old(state), Taken(old(conn.pending), conn.pending)) == R.Malformed && r == Err(InvalidData))
      ensures r == Ok(true) <==> old(state) == R.Done
      ensures old(state) == R.Done ==> state == R.Done && newPos == pos && conn.pending == old(conn.pending)
      ensures r.Err? ==> conn.lastRead == Err(r.error) || R.Feed(old(state), Taken(old(conn.pending), conn.pending)) == R.Malformed
      ensures r.Err? ==> state != R.Done
      ensures conn.budget <= old(conn.budget) && (r == Ok(false) ==> conn.budget < old(conn.budget))
    {
      newPos := pos;
      match state {
        case Header(line, linePos) =>
          var e := ReceiveChunkSize(line, linePos, conn);
          r := if e.Ok? then Ok(false) else Err(e.error);
        case Payload(remaining) =>
          var e;
          newPos, e := ReceiveChunkPayload(remaining, buffer, pos, conn);
          r := if e.Ok? then Ok(false) else Err(e.error);
        case Trailer(crlf, trailerPos, isLast) =>
          var e := ReceiveChunkTrailer(crlf, trailerPos, isLast, conn);
          r := if e.Ok? then Ok(false) else Err(e.error);
        case Done =>
          assert Taken(conn.pending, conn.pending) == [];
          r := Ok(true);
      }
    }

    /**
     * `read`: fills `buffer[pos..]` with payload until the buffer is full
     * (Ok(false)) or the body is complete (Ok(true)). Whatever happens, the
     * new state and the payload delivered are what the chunked decoder makes
     * of all the bytes taken from the stream, unless those bytes hold a
     * malformed size line, which is InvalidData.
     */
    method Read(buffer: array<byte>, pos: nat, conn: ReadableStream) returns (newPos: nat, r: Result<bool, ErrorKind>)
      requires Valid() && pos <= buffer.Length
      modifies this, buffer, conn
      ensures Valid()
      ensures pos <= newPos <= buffer.Length
      ensures buffer[..] == old(buffer[..])[..pos] + buffer[pos..newPos] + old(buffer[..])[newPos..]
      ensures EndsWith(old(conn.pending), conn.pending)
      ensures R.Feed(old(state), Taken(old(conn.pending), conn.pending)) == R.Running(state, buffer[pos..newPos])
           || (R.Feed(old(state), Taken(old(conn.pending), conn.pending)) == R.Malformed && r == Err(InvalidData))
      ensures r == Ok(true) ==> state == R.Done && newPos < buffer.Length
      ensures state == R.Done && newPos < buffer.Length ==> r == Ok(true)
      ensures r == Ok(false) ==> newPos == buffer.Length
      ensures r.Err? ==> conn.lastRead == Err(r.error) || R.Feed(old(state), Taken(old(conn.pending), conn.pending)) == R.Malformed
      ensures old(state) == R.Done && pos < buffer.Length ==> r == Ok(true) && newPos == pos && conn.pending == old(conn.pending)
    {
      newPos := pos;
      assert Taken(conn.pending, conn.pending) == [];
      assert buffer[pos..newPos] == [];
      while newPos < buffer.Length
        invariant Valid() && pos <= newPos <= buffer.Length
        invariant buffer[..] == old(buffer[..])[..pos] + buffer[pos..newPos] + old(buffer[..])[newPos..]
        invariant EndsWith(old(conn.pending), conn.pending)
        invariant R.Feed(old(state), Taken(old(conn.pending), conn.pending)) == R.Running(state, buffer[pos..newPos])
        invariant old(state) == R.Done ==> state == R.Done && newPos == pos && conn.pending == old(conn.pending)
        decreases conn.budget
      {
        ghost var stateBefore := state;
        ghost var pendingBefore := conn.pending;
        ghost var before := buffer[..];
        ghost var delivered := buffer[pos..newPos];
        var stepPos, e := ReadStep(buffer, newPos, conn);
        ReaderProgress(old(state), old(conn.pending), pendingBefore, conn.pending, stateBefore, delivered);
        Splice(old(buffer[..]), before, buffer[..], pos, newPos, stepPos);
        newPos := stepPos;
        if e != Ok(false) {
          if e.Err? {
            assert state != R.Done;
          } else {
            assert e.value;
          }
          if e.Err? && conn.lastRead != Err(e.error) {
            assert R.Feed(stateBefore, Taken(pendingBefore, conn.pending)) == R.Malformed;
          }
          return newPos, e;
        }
      }
      r := Ok(false);
    }
  }

  /** The bytes a stream was sent between two of its states. */
  function Appended(before: seq<byte>, after: seq<byte>): seq<byte>
    requires StartsWith(after, before)
  {
    after[|before|..]
  }

  lemma AppendedOf(before: seq<byte>, delta: seq<byte>)
    ensures StartsWith(before + delta, before) && Appended(before, before + delta) == delta
  {
    assert (before + delta)[..|before|] == before;
  }

  lemma AppendedSplit(a: seq<byte>, b: seq<byte>, c: seq<byte>)
    requires StartsWith(b, a) && StartsWith(c, b)
    ensures StartsWith(c, a) && Appended(a, c) == Appended(a, b) + Appended(b, c)
  {
    assert c[..|a|] == b[..|a|];
  }

  /** One more step of the writer after the bytes already sent. */
  lemma WriterProgress(e0: Option<seq<byte>>, s0: seq<byte>, s1: seq<byte>, s2: seq<byte>, e1: Option<seq<byte>>, e2: Option<seq<byte>>)
    requires StartsWith(s1, s0) && StartsWith(s2, s1)
    requires e0 == W.PrependOpt(Appended(s0, s1), e1)
    requires e1 == W.PrependOpt(Appended(s1, s2), e2)
    ensures StartsWith(s2, s0) && e0 == W.PrependOpt(Appended(s0, s2), e2)
  {
    AppendedSplit(s0, s1, s2);
    W.PrependTwice(Appended(s0, s1), Appended(s1, s2), e2);
  }

  lemma PrependNothing(e: Option<seq<byte>>)
    ensures W.PrependOpt([], e) == e
  {
    if e.Some? {
      assert [] + e.value == e.value;
    }
  }

  class ChunkedBodyWriter {
    var state: W.WriterChunkState

    ghost predicate Valid()
      reads this
    {
      W.WriterValid(state)
    }

    /** `new`: waits for the first write. */
    constructor ()
      ensures state == W.Waiting && Valid()
    {
      state := W.Waiting;
    }

    /** `init_chunk`: the next chunk carries all of the unsent rest of the buffer. */
    method InitChunk(buffer: seq<byte>, pos: nat)
      requires pos <= |buffer|
      modifies this
      ensures state == W.Header(|buffer| - pos, 0) && Valid()
      ensures W.Emission(W.Waiting, buffer[pos..]) == W.Emission(state, buffer[pos..])
    {
      state := W.Header(|buffer| - pos, 0);
    }

    /**
     * `send_chunk_size`: sends the rest of the lowercase hexadecimal size line;
     * a stream error stores how far it got. What was sent and what is still to
     * be sent from the new state make up what was to be sent from the old one,
     * whatever the unsent rest of the caller's buffer.
     */
    method SendChunkSize(toSend: nat, pos: nat, conn: WriteableStream, ghost rest: seq<byte>) returns (r: Result<(), ErrorKind>)
      requires W.WriterValid(W.Header(toSend, pos))
      modifies this, conn
      ensures Valid()
      ensures StartsWith(conn.sent, old(conn.sent))
      ensures W.Emission(W.Header(toSend, pos), rest) == W.PrependOpt(Appended(old(conn.sent), conn.sent), W.Emission(state, rest))
      ensures r.Ok? ==> state == if toSend == 0 then W.Trailer(CRLF, 0, true) else W.Payload(toSend)
      ensures r == conn.lastWrite
      ensures conn.budget <= old(conn.budget) && (r.Ok? ==> conn.budget < old(conn.budget))
    {
      var encoded := LowerHex(toSend) + CRLF;
      assert encoded == R.SizeLine(toSend);
      var p, e := conn.Write(encoded, pos);
      AppendedOf(old(conn.sent), encoded[pos..p]);
      ghost var next := W.Emission(if toSend == 0 then W.Trailer(CRLF, 0, true) else W.Payload(toSend), rest);
      assert W.Emission(W.Header(toSend, pos), rest) == W.PrependOpt(encoded[pos..], next);
      W.PrependTwice(encoded[pos..p], encoded[p..], next);
      assert encoded[pos..p] + encoded[p..] == encoded[pos..];
      if e.Err? {
        state := W.Header(toSend, p);
        return e;
      }
      assert encoded[p..] == [];
      PrependNothing(next);
      state := if toSend == 0 then W.Trailer(CRLF, 0, true) else W.Payload(toSend);
      r := e;
    }

    /**
     * `send_chunk_payload`: sends at most min(remaining, unsent) bytes of the
     * buffer; the remaining count drops by what was sent even when the stream
     * fails, and a chunk whose data is all sent is followed by the data trailer.
     */
    method SendChunkPayload(remaining: nat, buffer: seq<byte>, pos: nat, conn: WriteableStream) returns (newPos: nat, r: Result<(), ErrorKind>)
      requires 0 < remaining && pos <= |buffer|
      modifies this, conn
      ensures Valid()
      ensures pos <= newPos <= |buffer| && newPos - pos <= remaining
      ensures conn.sent == old(conn.sent) + buffer[pos..newPos]
      ensures state == if newPos - pos == remaining then W.Trailer(W.DATA_TRAILER, 0, false) else W.Payload(remaining - (newPos - pos))
      ensures W.Emission(W.Payload(remaining), buffer[pos..]) == W.PrependOpt(buffer[pos..newPos], W.Emission(state, buffer[newPos..]))
      ensures r == conn.lastWrite
      ensures conn.budget <= old(conn.budget) && (r.Ok? ==> conn.budget < old(conn.budget))
    {
      var toSend := if remaining > |buffer| - pos then |buffer| - pos else remaining;
      newPos, r := conn.Write(buffer[..pos + toSend], pos);
      SliceOfPrefix(buffer, pos + toSend, pos, newPos);
      var sent := newPos - pos;
      state := if sent == remaining then W.Trailer(W.DATA_TRAILER, 0, false) else W.Payload(remaining - sent);
      PayloadResume(remaining, buffer, pos, newPos);
    }

    /**
     * `send_chunk_trailer`: sends the rest of the two-byte trailer; a stream
     * error stores how far it got; the terminator's trailer finalizes the body,
     * a data chunk's trailer makes the writer wait for the next chunk.
     */
    method SendChunkTrailer(crlf: seq<byte>, pos: nat, isLast: bool, conn: WriteableStream, ghost rest: seq<byte>) returns (r: Result<(), ErrorKind>)
      requires W.WriterValid(W.Trailer(crlf, pos, isLast))
      modifies this, conn
      ensures Valid()
      ensures StartsWith(conn.sent, old(conn.sent))
      ensures W.Emission(W.Trailer(crlf, pos, isLast), rest) == W.PrependOpt(Appended(old(conn.sent), conn.sent), W.Emission(state, rest))
      ensures r.Ok? ==> state == if isLast then W.Finalized else W.Waiting
      ensures r == conn.lastWrite
      ensures conn.budget <= old(conn.budget) && (r.Ok? ==> conn.budget < old(conn.budget))
    {
      var p, e := conn.Write(crlf, pos);
      AppendedOf(old(conn.sent), crlf[pos..p]);
      var next := if isLast then Some([]) else W.Emission(W.Waiting, rest);
      W.PrependTwice(crlf[pos..p], crlf[p..], next);
      assert crlf[pos..p] + crlf[p..] == crlf[pos..];
      if e.Err? {
        state := W.Trailer(crlf, p, isLast);
        return e;
      }
      assert crlf[p..] == [];
      PrependNothing(next);
      state := if isLast then W.Finalized else W.Waiting;
      r := e;
    }

    /**
     * One pass of `write_chunk`'s loop: the step the current (unfinalized)
     * state calls for, with the same resume guarantee as the steps.
     */
    method WriteStep(buffer: seq<byte>, pos: nat, conn: WriteableStream) returns (newPos: nat, r: Result<(), ErrorKind>)
      requires Valid() && state != W.Finalized && pos <= |buffer|
      modifies this, conn
      ensures Valid()
      ensures pos <= newPos <= |buffer|
      ensures StartsWith(conn.sent, old(conn.sent))
      ensures W.Emission(old(state), buffer[pos..]) == W.PrependOpt(Appended(old(conn.sent), conn.sent), W.Emission(state, buffer[newPos..]))
      ensures conn.budget <= old(conn.budget)
      ensures r.Ok? && !old(state).Waiting? ==> conn.budget < old(conn.budget)
      ensures old(state).Waiting? ==> r.Ok? && !state.Waiting? && conn.budget == old(conn.budget)
      ensures r.Err? ==> conn.lastWrite == r
      ensures old(state).Payload? && pos == |buffer| ==> state == old(state) && conn.sent == old(conn.sent) && newPos == pos
    {
      newPos := pos;
      assert Appended(conn.sent, conn.sent) == [];
      match state {
        case Waiting =>
          InitChunk(buffer, pos);
          PrependNothing(W.Emission(state, buffer[pos..]));
          r := Ok(());
        case Header(toSend, linePos) =>
          r := SendChunkSize(toSend, linePos, conn, buffer[pos..]);
        case Payload(remaining) =>
          newPos, r := SendChunkPayload(remaining, buffer, pos, conn);
          AppendedOf(old(conn.sent), buffer[pos..newPos]);
          assert buffer[pos..pos] == [];
        case Trailer(crlf, trailerPos, isLast) =>
          r := SendChunkTrailer(crlf, trailerPos, isLast, conn, buffer[pos..]);
      }
    }

    /**
     * `write_chunk`: drives the state machine until the body is finalized.
     * Whatever happens, what was sent and what the new state still sends make
     * up what the old state was to send; on success the writer is finalized,
     * so what was sent is all of it.
     */
    method WriteChunk(buffer: seq<byte>, pos: nat, conn: WriteableStream) returns (newPos: nat, r: Result<(), ErrorKind>)
      requires Valid() && pos <= |buffer|
      modifies this, conn
      ensures Valid()
      ensures pos <= newPos <= |buffer|
      ensures StartsWith(conn.sent, old(conn.sent))
      ensures W.Emission(old(state), buffer[pos..]) == W.PrependOpt(Appended(old(conn.sent), conn.sent), W.Emission(state, buffer[newPos..]))
      ensures r.Ok? ==> state == W.Finalized && W.Emission(old(state), buffer[pos..]) == Some(Appended(old(conn.sent), conn.sent))
      ensures old(state) == W.Finalized ==> r.Ok? && conn.sent == old(conn.sent) && newPos == pos
      ensures r.Err? ==> conn.lastWrite == r
      ensures old(state).Payload? && pos == |buffer| ==> r.Err? && state == old(state) && conn.sent == old(conn.sent)
    {
      newPos := pos;
      assert Appended(conn.sent, conn.sent) == [];
      PrependNothing(W.Emission(state, buffer[pos..]));
      while state != W.Finalized
        invariant Valid() && pos <= newPos <= |buffer|
        invariant StartsWith(conn.sent, old(conn.sent))
        invariant W.Emission(old(state), buffer[pos..]) == W.PrependOpt(Appended(old(conn.sent), conn.sent), W.Emission(state, buffer[newPos..]))
        invariant old(state) == W.Finalized ==> state == W.Finalized && conn.sent == old(conn.sent) && newPos == pos
        invariant old(state).Payload? && pos == |buffer| ==> state == old(state) && conn.sent == old(conn.sent) && newPos == pos
        decreases conn.budget, if state.Waiting? then 1 else 0
      {
        ghost var sentBefore := conn.sent;
        ghost var emissionBefore := W.Emission(state, buffer[newPos..]);
        var stepPos, e := WriteStep(buffer, newPos, conn);
        WriterProgress(W.Emission(old(state), buffer[pos..]), old(conn.sent), sentBefore, conn.sent, emissionBefore, W.Emission(state, buffer[stepPos..]));
        newPos := stepPos;
        if e.Err? {
          return newPos, e;
        }
      }
      assert W.Emission(state, buffer[newPos..]) == Some([]);
      assert Appended(old(conn.sent), conn.sent) + [] == Appended(old(conn.sent), conn.sent);
      r := Ok(());
    }

    /**
     * `write`: an empty rest of the buffer sends nothing (an empty chunk would
     * end the body) and is refused once the body is finalized; otherwise the
     * rest goes out as one chunk followed by the terminator.
     */
    method Write(buffer: seq<byte>, pos: nat, conn: WriteableStream) returns (newPos: nat, r: Result<(), ErrorKind>)
      requires Valid() && pos <= |buffer|
      modifies this, conn
      ensures Valid()
      ensures pos <= newPos <= |buffer|
      ensures StartsWith(conn.sent, old(conn.sent))
      ensures pos < |buffer| ==>
        W.Emission(old(state), buffer[pos..]) == W.PrependOpt(Appended(old(conn.sent), conn.sent), W.Emission(state, buffer[newPos..]))
      ensures pos < |buffer| && r.Ok? ==> state == W.Finalized
      ensures pos < |buffer| && old(state) == W.Finalized ==> r.Ok? && conn.sent == old(conn.sent)
      ensures pos < |buffer| && r.Ok? && old(state) == W.Waiting ==>
        Appended(old(conn.sent), conn.sent) == R.SizeLine(|buffer| - pos) + buffer[pos..] + W.DATA_TRAILER + R.LAST_CHUNK
      ensures pos == |buffer| ==> state == old(state) && conn.sent == old(conn.sent) && newPos == pos
      ensures pos == |buffer| ==> (r == Err(InvalidInput) <==> old(state) == W.Finalized) && (r.Err? ==> r == Err(InvalidInput))
      ensures pos < |buffer| && r.Err? ==> conn.lastWrite == r
    {
      if pos < |buffer| {
        newPos, r := WriteChunk(buffer, pos, conn);
        W.WaitingEmission(buffer[pos..]);
      } else if state == W.Finalized {
        assert Appended(conn.sent, conn.sent) == [];
        return pos, Err(InvalidInput);
      } else {
        assert Appended(conn.sent, conn.sent) == [];
        return pos, Ok(());
      }
    }

    /**
     * `finalize`: sends the terminator (and whatever is left of a pending
     * chunk) unless the body is already finalized; Ok(true) once it is.
     */
    method Finalize(conn: WriteableStream) returns (r: Result<bool, ErrorKind>)
      requires Valid()
      modifies this, conn
      ensures Valid()
      ensures StartsWith(conn.sent, old(conn.sent))
      ensures W.Emission(old(state), []) == W.PrependOpt(Appended(old(conn.sent), conn.sent), W.Emission(state, []))
      ensures r.Ok? ==> r == Ok(true) && state == W.Finalized && W.Emission(old(state), []) == Some(Appended(old(conn.sent), conn.sent))
      ensures old(state) == W.Finalized ==> r == Ok(true) && conn.sent == old(conn.sent)
      ensures r.Err? ==> conn.lastWrite == Err(r.error)
      ensures old(state).Payload? ==> r.Err? && state == old(state) && conn.sent == old(conn.sent)
    {
      if state != W.Finalized {
        var empty: seq<byte> := [];
        assert empty[0..] == [];
        var emptyPos, e := WriteChunk(empty, 0, conn);
        assert empty[emptyPos..] == [];
        if e.Err? {
          return Err(e.error);
        }
      } else {
        assert Appended(conn.sent, conn.sent) == [];
        PrependNothing(W.Emission(state, []));
      }
      r := Ok(true);
    }
  }

  /** `send_chunk_payload` keeps the writer's emission: the resume guarantee for one payload step. */
  lemma PayloadResume(remaining: nat, buffer: seq<byte>, pos: nat, newPos: nat)
    requires 0 < remaining && pos <= newPos <= |buffer| && newPos - pos <= remaining
    ensures W.Emission(W.Payload(remaining), buffer[pos..]) ==
      W.PrependOpt(buffer[pos..newPos],
        W.Emission(if newPos - pos == remaining then W.Trailer(W.DATA_TRAILER, 0, false) else W.Payload(remaining - (newPos - pos)), buffer[newPos..]))
  {
    var rest := buffer[pos..];
    var sent := newPos - pos;
    if remaining > |rest| {
      assert W.Emission(W.Payload(remaining - sent), buffer[newPos..]).None?;
    } else {
      assert rest[..remaining] == buffer[pos..pos + remaining];
      assert rest[remaining..] == buffer[pos + remaining..];
      if sent < remaining {
        var tail := W.Emission(W.Trailer(W.DATA_TRAILER, 0, false), buffer[pos + remaining..]);
        var left := remaining - sent;
        assert buffer[newPos..][..left] == buffer[newPos..pos + remaining];
        assert buffer[newPos..][left..] == buffer[pos + remaining..];
        W.PrependTwice(buffer[pos..newPos], buffer[newPos..pos + remaining], tail);
        assert buffer[pos..newPos] + buffer[newPos..pos + remaining] == buffer[pos..pos + remaining];
      }
    }
  }
}
