/**
 * The reader half of the chunked transfer coding (section 4.1 of RFC 7230) as
 * `src/chunked_body.rs` implements it, stated as a pure specification: `Feed`
 * runs the reader's state machine over received bytes, one byte at a time, and
 * yields the new state and the payload bytes delivered. `ChunkedBody` proves
 * its reader class follows `Feed`, also across errors; the lemmas at the end
 * state what `Feed` does on whole chunked bodies.
 */
module ChunkedReaderSpec {
  import opened Wrappers
  import opened Bytes
  import opened Numbers

  /** The size line of a chunk: the length in lowercase hexadecimal, then CRLF (`format!("{:x}\r\n", n)`). */
  function SizeLine(n: nat): seq<byte> { LowerHex(n) + CRLF }

  /** The zero-length chunk that ends a body, with its empty trailer. */
  const LAST_CHUNK: seq<byte> := SizeLine(0) + CRLF

  /** Capacity of the reader's size-line buffer (`[u8; 18]`). */
  const SIZE_LINE_CAPACITY: nat := 18

  /** The reader's fresh buffers: `[0u8; 18]` for a size line, `[0u8; 2]` for a trailer. */
  const EMPTY_LINE: seq<byte> := [0, 0, 0, 0, 0, 0, 0, 0, 0, 0, 0, 0, 0, 0, 0, 0, 0, 0]
  const EMPTY_CRLF: seq<byte> := [0, 0]

  // ---------------------------------------------------------------- reader

  datatype ReaderChunkState =
    | Header(line: seq<byte>, pos: nat)
    | Payload(remaining: nat)
    | Trailer(crlf: seq<byte>, pos: nat, isLast: bool)
    | Done

  /** A fresh reader awaits a size line with an empty buffer. */
  const READER_START: ReaderChunkState := Header(EMPTY_LINE, 0)

  /** A line buffer of `capacity` bytes, filled up to `pos`, without a CRLF yet. */
  predicate LinePending(line: seq<byte>, pos: nat, capacity: nat) {
    |line| == capacity && pos <= capacity &&
    forall k | 0 < k <= pos :: !EndsAt(line, k, CRLF)
  }

  predicate ReaderValid(s: ReaderChunkState) {
    match s
    case Header(line, pos) => LinePending(line, pos, SIZE_LINE_CAPACITY)
    case Payload(remaining) => 0 < remaining < U64_LIMIT
    case Trailer(crlf, pos, _) => LinePending(crlf, pos, 2)
    case Done => true
  }

  /** The reader's progress: a state and the payload delivered, or a dead end. */
  datatype Decoding =
    | Running(state: ReaderChunkState, payload: seq<byte>)
    | Malformed   // a size line that is not a base-16 `u64`
    | Stalled     // no further byte can be taken (done, or a line buffer full without CRLF)

  /** The state after a complete size line whose text before CRLF is `digits`. */
  function AfterSizeLine(digits: seq<byte>): Decoding {
    match ParseUnsigned(digits, 16, U64_LIMIT)
    case None => Malformed
    case Some(n) => if n == 0 then Running(Trailer(EMPTY_CRLF, 0, true), []) else Running(Payload(n), [])
  }

  /** The reader takes one byte. */
  function Step(s: ReaderChunkState, b: byte): Decoding {
    match s
    case Header(line, pos) =>
      if pos >= |line| then Stalled
      else
        var l := line[pos := b];
        if EndsAt(l, pos + 1, CRLF) then AfterSizeLine(l[..pos - 1])
        else Running(Header(l, pos + 1), [])
    case Payload(remaining) =>
      if remaining == 0 then Stalled
      else if remaining == 1 then Running(Trailer(EMPTY_CRLF, 0, false), [b])
      else Running(Payload(remaining - 1), [b])
    case Trailer(crlf, pos, isLast) =>
      if pos >= |crlf| then Stalled
      else
        var l := crlf[pos := b];
        if EndsAt(l, pos + 1, CRLF) then Running(if isLast then Done else READER_START, [])
        else Running(Trailer(l, pos + 1, isLast), [])
    case Done => Stalled
  }

  function WithPayload(out: seq<byte>, d: Decoding): Decoding {
    match d
    case Running(s, o) => Running(s, out + o)
    case Malformed => Malformed
    case Stalled => Stalled
  }

  /** The reader takes the bytes in order. */
  function Feed(s: ReaderChunkState, bytes: seq<byte>): Decoding
    decreases |bytes|
  {
    if bytes == [] then Running(s, [])
    else
      match Step(s, bytes[0])
      case Running(s1, o1) => WithPayload(o1, Feed(s1, bytes[1..]))
      case Malformed => Malformed
      case Stalled => Stalled
  }

  /** Continues a decoding with more bytes. */
  function Then(d: Decoding, more: seq<byte>): Decoding {
    if d.Running? then WithPayload(d.payload, Feed(d.state, more)) else d
  }

  lemma WithPayloadThen(out: seq<byte>, d: Decoding, more: seq<byte>)
    ensures WithPayload(out, Then(d, more)) == Then(WithPayload(out, d), more)
  {
    if d.Running? {
      match Feed(d.state, more)
      case Running(s2, o2) =>
        assert out + (d.payload + o2) == (out + d.payload) + o2;
      case Malformed =>
      case Stalled =>
    }
  }

  /** Feeding two pieces one after the other is feeding their concatenation. */
  lemma {:induction false} FeedAppend(s: ReaderChunkState, a: seq<byte>, b: seq<byte>)
    ensures Feed(s, a + b) == Then(Feed(s, a), b)
    decreases |a|
  {
    if a == [] {
      assert a + b == b;
      match Feed(s, b)
      case Running(s2, o2) => assert [] + o2 == o2;
      case Malformed =>
      case Stalled =>
    } else {
      assert (a + b)[0] == a[0];
      assert (a + b)[1..] == a[1..] + b;
      match Step(s, a[0])
      case Running(s1, o1) =>
        FeedAppend(s1, a[1..], b);
        WithPayloadThen(o1, Feed(s1, a[1..]), b);
      case Malformed =>
      case Stalled =>
    }
  }

  /** Bytes that bring the reader to a state without payload, then more bytes: the decoding of the latter. */
  lemma FeedThrough(s: ReaderChunkState, a: seq<byte>, mid: ReaderChunkState, b: seq<byte>, c: seq<byte>)
    requires Feed(s, a) == Running(mid, [])
    ensures Feed(s, a + b + c) == Feed(mid, b + c)
  {
    assert a + b + c == a + (b + c);
    FeedAppend(s, a, b + c);
    WithPayloadEmpty(Feed(mid, b + c));
  }

  /**
   * Bytes received into a size-line buffer without completing a CRLF leave the
   * reader in the size-line state holding exactly those bytes.
   */
  lemma {:induction false} HeaderScan(line: seq<byte>, pos: nat, filled: seq<byte>, q: nat)
    requires |line| == |filled| && pos <= q <= |line|
    requires filled[..pos] == line[..pos]
    requires forall k | pos < k <= q :: !EndsAt(filled, k, CRLF)
    ensures Feed(Header(line, pos), filled[pos..q]) == Running(Header(filled[..q] + line[q..], q), [])
    decreases q - pos
  {
    if pos == q {
      assert filled[..q] + line[q..] == line;
    } else {
      var l := line[pos := filled[pos]];
      assert l[..pos + 1] == filled[..pos + 1];
      assert !EndsAt(filled, pos + 1, CRLF);
      assert Step(Header(line, pos), filled[pos]) == Running(Header(l, pos + 1), []);
      HeaderScan(l, pos + 1, filled, q);
      assert filled[..q] + l[q..] == filled[..q] + line[q..];
      assert filled[pos..q][1..] == filled[pos + 1..q];
      assert WithPayload([], Running(Header(filled[..q] + line[q..], q), [])) == Running(Header(filled[..q] + line[q..], q), []);
    }
  }

  lemma FeedSingle(s: ReaderChunkState, b: byte)
    ensures Feed(s, [b]) == Step(s, b)
  {
    assert [b][1..] == [];
    match Step(s, b)
    case Running(s1, o1) => assert o1 + [] == o1;
    case Malformed =>
    case Stalled =>
  }

  lemma WithPayloadEmpty(d: Decoding)
    ensures WithPayload([], d) == d
  {
    match d
    case Running(s, o) => assert [] + o == o;
    case Malformed =>
    case Stalled =>
  }

  /** Feeding all of `filled[pos..q]` is feeding all but its last byte, then that byte. */
  lemma FeedLast(s: ReaderChunkState, filled: seq<byte>, pos: nat, q: nat, mid: ReaderChunkState)
    requires pos < q <= |filled|
    requires Feed(s, filled[pos..q - 1]) == Running(mid, [])
    ensures Feed(s, filled[pos..q]) == Step(mid, filled[q - 1])
  {
    var b := filled[q - 1];
    assert filled[pos..q] == filled[pos..q - 1] + [b];
    FeedAppend(s, filled[pos..q - 1], [b]);
    FeedSingle(mid, b);
    WithPayloadEmpty(Step(mid, b));
  }

  /** Bytes that complete a size line move the reader to what the line announces. */
  lemma HeaderComplete(line: seq<byte>, pos: nat, filled: seq<byte>, q: nat)
    requires |line| == |filled| && pos < q <= |line|
    requires filled[..pos] == line[..pos]
    requires forall k | pos < k < q :: !EndsAt(filled, k, CRLF)
    requires EndsAt(filled, q, CRLF)
    ensures Feed(Header(line, pos), filled[pos..q]) == AfterSizeLine(filled[..q - 2])
  {
    var mid := filled[..q - 1] + line[q - 1..];
    HeaderScan(line, pos, filled, q - 1);
    FeedLast(Header(line, pos), filled, pos, q, Header(mid, q - 1));
    assert |mid| == |filled| && mid[..q - 1] == filled[..q - 1];
    StepCompletesSizeLine(mid, q - 1, filled);
  }

  lemma StepCompletesSizeLine(line: seq<byte>, pos: nat, filled: seq<byte>)
    requires |line| == |filled| && pos < |line|
    requires line[..pos] == filled[..pos]
    requires EndsAt(filled, pos + 1, CRLF)
    ensures Step(Header(line, pos), filled[pos]) == AfterSizeLine(filled[..pos - 1])
  {
    var l := line[pos := filled[pos]];
    assert l[..pos + 1] == filled[..pos + 1];
    assert l[..pos - 1] == filled[..pos - 1];
  }

  /** The trailer counterpart of `HeaderScan`. */
  lemma {:induction false} TrailerScan(crlf: seq<byte>, pos: nat, isLast: bool, filled: seq<byte>, q: nat)
    requires |crlf| == |filled| && pos <= q <= |crlf|
    requires filled[..pos] == crlf[..pos]
    requires forall k | pos < k <= q :: !EndsAt(filled, k, CRLF)
    ensures Feed(Trailer(crlf, pos, isLast), filled[pos..q]) == Running(Trailer(filled[..q] + crlf[q..], q, isLast), [])
    decreases q - pos
  {
    if pos == q {
      assert filled[..q] + crlf[q..] == crlf;
    } else {
      var l := crlf[pos := filled[pos]];
      assert l[..pos + 1] == filled[..pos + 1];
      assert !EndsAt(filled, pos + 1, CRLF);
      assert Step(Trailer(crlf, pos, isLast), filled[pos]) == Running(Trailer(l, pos + 1, isLast), []);
      TrailerScan(l, pos + 1, isLast, filled, q);
      assert filled[..q] + l[q..] == filled[..q] + crlf[q..];
      assert filled[pos..q][1..] == filled[pos + 1..q];
    }
  }

  /** The trailer counterpart of `HeaderComplete`. */
  lemma TrailerComplete(crlf: seq<byte>, pos: nat, isLast: bool, filled: seq<byte>, q: nat)
    requires |crlf| == |filled| && pos < q <= |crlf|
    requires filled[..pos] == crlf[..pos]
    requires forall k | pos < k < q :: !EndsAt(filled, k, CRLF)
    requires EndsAt(filled, q, CRLF)
    ensures Feed(Trailer(crlf, pos, isLast), filled[pos..q]) == Running(if isLast then Done else READER_START, [])
  {
    var mid := filled[..q - 1] + crlf[q - 1..];
    TrailerScan(crlf, pos, isLast, filled, q - 1);
    FeedLast(Trailer(crlf, pos, isLast), filled, pos, q, Trailer(mid, q - 1, isLast));
    StepCompletesTrailer(mid, q - 1, isLast, filled);
  }

  lemma StepCompletesTrailer(crlf: seq<byte>, pos: nat, isLast: bool, filled: seq<byte>)
    requires |crlf| == |filled| && pos < |crlf|
    requires crlf[..pos] == filled[..pos]
    requires EndsAt(filled, pos + 1, CRLF)
    ensures Step(Trailer(crlf, pos, isLast), filled[pos]) == Running(if isLast then Done else READER_START, [])
  {
    var l := crlf[pos := filled[pos]];
    assert l[..pos + 1] == filled[..pos + 1];
  }

  /**
   * Payload bytes are delivered unchanged, and the chunk's remaining count
   * drops by their number; at zero the reader expects the chunk's CRLF.
   */
  lemma {:induction false} PayloadFeed(remaining: nat, bytes: seq<byte>)
    requires 0 < remaining && |bytes| <= remaining
    ensures Feed(Payload(remaining), bytes) ==
      Running(if |bytes| == remaining then Trailer(EMPTY_CRLF, 0, false) else Payload(remaining - |bytes|), bytes)
    decreases |bytes|
  {
    if bytes != [] {
      var b, rest := bytes[0], bytes[1..];
      if remaining == 1 {
        var next := Trailer(EMPTY_CRLF, 0, false);
        assert rest == [] && bytes == [b];
        assert Step(Payload(1), b) == Running(next, [b]);
        assert Feed(next, rest) == Running(next, []);
      } else {
        PayloadFeed(remaining - 1, rest);
        assert Step(Payload(remaining), b) == Running(Payload(remaining - 1), [b]);
        assert [b] + rest == bytes;
      }
    }
  }

  // ------------------------------------------------- whole bodies


  /** No CRLF ends inside a size line the writer produces before its own, in the reader's buffer. */
  lemma SizeLineScan(n: nat, filled: seq<byte>)
    requires n < U64_LIMIT && |LowerHex(n)| + 2 <= |EMPTY_LINE|
    requires filled == SizeLine(n) + EMPTY_LINE[|LowerHex(n)| + 2..]
    ensures |EMPTY_LINE| == |filled|
    ensures forall k | 0 < k < |LowerHex(n)| + 2 :: !EndsAt(filled, k, CRLF)
    ensures EndsAt(filled, |LowerHex(n)| + 2, CRLF)
    ensures filled[..|LowerHex(n)|] == LowerHex(n)
  {
    var hex := LowerHex(n);
    var q := |hex| + 2;
    assert filled[..q] == hex + CRLF;
    assert filled[..|hex|] == hex;
    RenderDigits(n, 16);
    forall k | 0 < k < q
      ensures !EndsAt(filled, k, CRLF)
    {
      if k >= 2 {
        assert filled[k - 2] == hex[k - 2];
        assert IsRadixDigit(hex[k - 2], 16);
      }
      NotEndsAt(filled, k, CRLF);
    }
    assert filled[..q][q - 2..] == CRLF;
  }

  /** A size line the writer produces brings a fresh reader to that chunk's payload. */
  lemma SizeLineFeed(n: nat)
    requires n < U64_LIMIT
    ensures Feed(READER_START, SizeLine(n)) ==
      Running(if n == 0 then Trailer(EMPTY_CRLF, 0, true) else Payload(n), [])
  {
    var hex := LowerHex(n);
    HexLengthU64(n);
    var filled := SizeLine(n) + EMPTY_LINE[|hex| + 2..];
    SizeLineScan(n, filled);
    var q := |hex| + 2;
    assert filled[0..q] == SizeLine(n) && filled[..q - 2] == hex;
    HeaderComplete(EMPTY_LINE, 0, filled, q);
    RenderParse(n, 16, U64_LIMIT);
  }

  /** A CRLF after a chunk's payload ends the chunk, and after the last chunk ends the body. */
  lemma CrlfFeed(isLast: bool)
    ensures Feed(Trailer(EMPTY_CRLF, 0, isLast), CRLF) == Running(if isLast then Done else READER_START, [])
  {
    assert CRLF[0..2] == CRLF;
    assert EndsAt(CRLF, 2, CRLF);
    assert !EndsAt(CRLF, 1, CRLF);
    TrailerComplete(EMPTY_CRLF, 0, isLast, CRLF, 2);
  }

  /** The terminator brings a reader awaiting a size line to `Done`. */
  lemma LastChunkFeed()
    ensures Feed(READER_START, LAST_CHUNK) == Running(Done, [])
  {
    SizeLineFeed(0);
    FeedAppend(READER_START, SizeLine(0), CRLF);
    CrlfFeed(true);
  }

  /** One chunk in the coding of section 4.1 of RFC 7230: size line, data, CRLF. */
  function ChunkFrame(data: seq<byte>): seq<byte> { SizeLine(|data|) + data + CRLF }

  predicate ChunkSizesValid(chunks: seq<seq<byte>>) {
    forall i | 0 <= i < |chunks| :: 0 < |chunks[i]| < U64_LIMIT
  }

  /** A whole chunked body: the chunks' frames, then the terminator. */
  function ChunkedEncoding(chunks: seq<seq<byte>>): seq<byte> {
    if chunks == [] then LAST_CHUNK else ChunkFrame(chunks[0]) + ChunkedEncoding(chunks[1..])
  }

  /** One chunk brings a reader awaiting a size line back to that state, delivering the chunk's data. */
  lemma ChunkFrameFeed(data: seq<byte>)
    requires 0 < |data| < U64_LIMIT
    ensures Feed(READER_START, ChunkFrame(data)) == Running(READER_START, data)
  {
    var n := |data|;
    assert ChunkFrame(data) == SizeLine(n) + (data + CRLF);
    FeedAppend(READER_START, SizeLine(n), data + CRLF);
    SizeLineFeed(n);
    WithPayloadEmpty(Feed(Payload(n), data + CRLF));
    FeedAppend(Payload(n), data, CRLF);
    PayloadFeed(n, data);
    CrlfFeed(false);
    assert data + [] == data;
  }

  /** A body chunked per RFC 7230 decodes to the concatenated chunks and ends `Done`. */
  lemma {:induction false} EncodedChunksDecode(chunks: seq<seq<byte>>)
    requires ChunkSizesValid(chunks)
    ensures Feed(READER_START, ChunkedEncoding(chunks)) == Running(Done, Concat(chunks))
    decreases |chunks|
  {
    if chunks == [] {
      LastChunkFeed();
    } else {
      assert ChunkSizesValid(chunks[1..]) by {
        forall i | 0 <= i < |chunks[1..]| ensures 0 < |chunks[1..][i]| < U64_LIMIT {
          assert chunks[1..][i] == chunks[i + 1];
        }
      }
      EncodedChunksDecode(chunks[1..]);
      FeedAppend(READER_START, ChunkFrame(chunks[0]), ChunkedEncoding(chunks[1..]));
      ChunkFrameFeed(chunks[0]);
    }
  }
}
