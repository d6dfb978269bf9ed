/**
 * The writer half of `src/chunked_body.rs` as a specification: `Emission` is
 * everything the writer still sends from a state until it is finalized, given
 * the unsent rest of the caller's buffer.
 */
module ChunkedWriterSpec {
  import opened Wrappers
  import opened Bytes
  import opened Numbers
  import Dec = ChunkedReaderSpec


  datatype WriterChunkState =
    | Waiting
    | Header(toSend: nat, pos: nat)
    | Payload(remaining: nat)
    | Trailer(crlf: seq<byte>, pos: nat, isLast: bool)
    | Finalized

  /** The writer's trailer after a data chunk, as written in the source: two NUL bytes. */
  const DATA_TRAILER: seq<byte> := [0, 0]

  predicate WriterValid(s: WriterChunkState) {
    match s
    case Header(toSend, pos) => pos <= |Dec.SizeLine(toSend)|
    case Payload(remaining) => 0 < remaining
    case Trailer(crlf, pos, _) => |crlf| == 2 && pos <= 2
    case _ => true
  }

  /** Orders the writer's states so that `Emission` terminates. */
  function WriterRank(s: WriterChunkState): nat {
    match s
    case Finalized => 0
    case Payload(_) => 1
    case Trailer(_, _, isLast) => if isLast then 1 else 4
    case Header(_, _) => 2
    case Waiting => 3
  }

  function PrependOpt(out: seq<byte>, rest: Option<seq<byte>>): Option<seq<byte>> {
    if rest.Some? then Some(out + rest.value) else None
  }

  lemma PrependTwice(a: seq<byte>, b: seq<byte>, rest: Option<seq<byte>>)
    ensures PrependOpt(a, PrependOpt(b, rest)) == PrependOpt(a + b, rest)
  {
    if rest.Some? {
      assert a + (b + rest.value) == (a + b) + rest.value;
    }
  }

  /**
   * Everything the writer still sends from `s` until it is finalized, when
   * `rest` is the unsent part of the caller's buffer; None when it can make no
   * more progress (a pending chunk longer than the data left).
   */
  function Emission(s: WriterChunkState, rest: seq<byte>): Option<seq<byte>>
    decreases |rest|, WriterRank(s)
  {
    match s
    case Finalized => Some([])
    case Waiting => Emission(Header(|rest|, 0), rest)
    case Header(toSend, pos) =>
      if pos > |Dec.SizeLine(toSend)| then None
      else PrependOpt(Dec.SizeLine(toSend)[pos..],
                      if toSend == 0 then Emission(Trailer(CRLF, 0, true), rest) else Emission(Payload(toSend), rest))
    case Payload(remaining) =>
      if remaining == 0 || remaining > |rest| then None
      else PrependOpt(rest[..remaining], Emission(Trailer(DATA_TRAILER, 0, false), rest[remaining..]))
    case Trailer(crlf, pos, isLast) =>
      if pos > |crlf| then None
      else PrependOpt(crlf[pos..], if isLast then Some([]) else Emission(Waiting, rest))
  }

  /** From a size line for no data, the writer sends the rest of the terminator. */
  lemma TerminatorEmission(rest: seq<byte>)
    ensures Emission(Header(0, 0), rest) == Some(Dec.LAST_CHUNK)
  {
    assert Emission(Trailer(CRLF, 0, true), rest) == Some(CRLF) by {
      assert CRLF[0..] == CRLF && CRLF + [] == CRLF;
    }
    assert Dec.SizeLine(0)[0..] == Dec.SizeLine(0);
  }

  /**
   * What one call sends: nothing but the terminator for no data; otherwise one
   * chunk with all the data, the two-byte data trailer, and the terminator.
   */
  lemma WaitingEmission(data: seq<byte>)
    ensures data == [] ==> Emission(Waiting, data) == Some(Dec.LAST_CHUNK)
    ensures data != [] ==> Emission(Waiting, data) == Some(Dec.SizeLine(|data|) + data + DATA_TRAILER + Dec.LAST_CHUNK)
  {
    TerminatorEmission([]);
    assert Emission(Waiting, []) == Some(Dec.LAST_CHUNK);
    if data != [] {
      var n := |data|;
      assert Emission(Trailer(DATA_TRAILER, 0, false), []) == Some(DATA_TRAILER + Dec.LAST_CHUNK) by {
        assert DATA_TRAILER[0..] == DATA_TRAILER;
      }
      assert Emission(Payload(n), data) == Some(data + (DATA_TRAILER + Dec.LAST_CHUNK)) by {
        assert data[n..] == [] && data[..n] == data;
      }
      assert Emission(Header(n, 0), data) == Some(Dec.SizeLine(n) + (data + (DATA_TRAILER + Dec.LAST_CHUNK))) by {
        assert Dec.SizeLine(n)[0..] == Dec.SizeLine(n);
      }
      assert Dec.SizeLine(n) + (data + (DATA_TRAILER + Dec.LAST_CHUNK)) == Dec.SizeLine(n) + data + DATA_TRAILER + Dec.LAST_CHUNK;
    }
  }

  /** A reader awaiting a chunk's CRLF fills its two-byte buffer with the writer's NUL NUL and finds no CRLF. */
  lemma NulTrailerAfterData()
    ensures Dec.Feed(Dec.Trailer(Dec.EMPTY_CRLF, 0, false), DATA_TRAILER) == Dec.Running(Dec.Trailer(DATA_TRAILER, 2, false), [])
  {
    NotEndsAt(DATA_TRAILER, 1, CRLF);
    NotEndsAt(DATA_TRAILER, 2, CRLF);
    Dec.TrailerScan(Dec.EMPTY_CRLF, 0, false, DATA_TRAILER, 2);
    assert DATA_TRAILER[0..2] == DATA_TRAILER && DATA_TRAILER[..2] + Dec.EMPTY_CRLF[2..] == DATA_TRAILER;
  }

  /** A reader in a chunk's payload takes the data and then NUL NUL into its trailer buffer. */
  lemma NulTrailerAfterPayload(data: seq<byte>)
    requires 0 < |data|
    ensures Dec.Feed(Dec.Payload(|data|), data + DATA_TRAILER) == Dec.Running(Dec.Trailer(DATA_TRAILER, 2, false), data)
  {
    Dec.FeedAppend(Dec.Payload(|data|), data, DATA_TRAILER);
    Dec.PayloadFeed(|data|, data);
    NulTrailerAfterData();
    assert data + [] == data;
  }

  /** A reader that took a chunk's size line and data, then the writer's NUL NUL, holds a full trailer buffer without CRLF. */
  lemma NulTrailerFeed(data: seq<byte>)
    requires 0 < |data| < U64_LIMIT
    ensures Dec.Feed(Dec.READER_START, Dec.SizeLine(|data|) + data + DATA_TRAILER) == Dec.Running(Dec.Trailer(DATA_TRAILER, 2, false), data)
  {
    var n := |data|;
    NulTrailerAfterPayload(data);
    Dec.SizeLineFeed(n);
    Dec.FeedThrough(Dec.READER_START, Dec.SizeLine(n), Dec.Payload(n), data, DATA_TRAILER);
  }

  /**
   * What the writer emits for one non-empty write is not a chunked body the
   * reader accepts: the data trailer is NUL NUL where CRLF belongs, so the
   * reader's two-byte trailer buffer fills without a CRLF and it takes nothing more.
   */
  lemma WrittenBodyRejected(data: seq<byte>)
    requires 0 < |data| < U64_LIMIT
    ensures Emission(Waiting, data).Some?
    ensures Dec.Feed(Dec.READER_START, Emission(Waiting, data).value) == Dec.Stalled
  {
    WaitingEmission(data);
    var chunk := Dec.SizeLine(|data|) + data + DATA_TRAILER;
    assert Emission(Waiting, data).value == chunk + Dec.LAST_CHUNK;
    Dec.FeedAppend(Dec.READER_START, chunk, Dec.LAST_CHUNK);
    NulTrailerFeed(data);
    assert Dec.Step(Dec.Trailer(DATA_TRAILER, 2, false), Dec.LAST_CHUNK[0]) == Dec.Stalled;
  }

  /**
   * What one write evidently means to send: the same chunk and terminator as
   * `Emission(Waiting, data)`, but with the CRLF that section 4.1 of RFC 7230
   * puts after a chunk's data in place of the NUL NUL data trailer.
   */
  function CorrectedWrite(data: seq<byte>): (r: seq<byte>)
    ensures data != [] ==> |r| >= |Dec.LAST_CHUNK| + 2 && Emission(Waiting, data) == Some(r[..|r| - |Dec.LAST_CHUNK| - 2] + DATA_TRAILER + Dec.LAST_CHUNK)
    ensures data == [] ==> Emission(Waiting, data) == Some(r)
  {
    WaitingEmission(data);
    if data == [] then Dec.LAST_CHUNK
    else
      var frame := Dec.SizeLine(|data|) + data;
      assert (frame + CRLF + Dec.LAST_CHUNK)[..|frame|] == frame;
      frame + CRLF + Dec.LAST_CHUNK
  }

  /** With the corrected trailer, a fresh reader decodes what one write sends back to the written data and ends `Done`. */
  lemma CorrectedWriteDecodes(data: seq<byte>)
    requires |data| < U64_LIMIT
    ensures Dec.Feed(Dec.READER_START, CorrectedWrite(data)) == Dec.Running(Dec.Done, data)
  {
    if data == [] {
      Dec.EncodedChunksDecode([]);
      assert Concat<byte>([]) == [];
    } else {
      Dec.EncodedChunksDecode([data]);
      assert Dec.ChunkedEncoding([data]) == Dec.ChunkFrame(data) + Dec.ChunkedEncoding([data][1..]);
      assert [data][1..] == [];
      assert Concat([data]) == data + Concat<byte>([]);
    }
  }
}
