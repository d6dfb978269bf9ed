/**
 * `SizedBodyReader` and `SizedBodyWriter` of `src/sized_body.rs`: a body whose
 * length is announced up front (Content-Length, section 3.3.2 of RFC 7230). A
 * counter of the bytes still to transfer caps every stream operation, so the
 * body never carries more than the announced size.
 */
module SizedBody {
  import opened Wrappers
  import opened Bytes
  import opened IoError
  import opened Streams

  class SizedBodyReader {
    const bodySize: nat
    var remaining: nat
    /** Every byte delivered so far, in order. */
    ghost var received: seq<byte>

    ghost predicate Valid()
      reads this
    {
      bodySize < U64_LIMIT && remaining <= bodySize && |received| + remaining == bodySize
    }

    /** `new(size)`: nothing received, all of `size` remaining. */
    constructor (size: nat)
      requires size < U64_LIMIT
      ensures bodySize == size && remaining == size && received == [] && Valid()
    {
      bodySize := size;
      remaining := size;
      received := [];
    }

    /** `size`: the announced length. */
    function Size(): (r: Option<nat>)
      reads this
      ensures r == Some(bodySize)
    {
      Some(bodySize)
    }

    /**
     * `read`: asks for at most min(remaining, free space) bytes; `remaining`
     * drops by what arrived even when the stream fails, and the stream's error
     * is returned after that. Ok(true) exactly when the body is complete.
     */
    method Read(buffer: array<byte>, pos: nat, conn: ReadableStream) returns (newPos: nat, r: Result<bool, ErrorKind>)
      requires Valid() && pos <= buffer.Length
      modifies this, buffer, conn
      ensures Valid()
      ensures pos <= newPos <= buffer.Length && newPos - pos <= old(remaining)
      ensures buffer[..] == old(buffer[..])[..pos] + buffer[pos..newPos] + old(buffer[..])[newPos..]
      ensures old(conn.pending) == buffer[pos..newPos] + conn.pending
      ensures received == old(received) + buffer[pos..newPos]
      ensures remaining == old(remaining) - (newPos - pos)
      ensures r.Ok? ==> r.value == (remaining == 0)
      ensures r.Ok? <==> conn.lastRead.Ok?
      ensures r.Err? ==> conn.lastRead == Err(r.error)
      ensures old(remaining) == 0 ==> newPos == pos && conn.pending == old(conn.pending)
    {
      var toReceive := if remaining > buffer.Length - pos then buffer.Length - pos else remaining;
      var result;
      newPos, result := conn.Read(buffer, pos, pos + toReceive);
      assert old(conn.pending) == old(conn.pending)[..newPos - pos] + old(conn.pending)[newPos - pos..];
      remaining := remaining - (newPos - pos);
      received := received + buffer[pos..newPos];
      if result.Err? {
        return newPos, Err(result.error);
      }
      r := Ok(remaining == 0);
    }
  }

  class SizedBodyWriter {
    var remaining: nat
    /** Every byte of the body sent so far, in order. */
    ghost var written: seq<byte>
    ghost const bodySize: nat

    ghost predicate Valid()
      reads this
    {
      bodySize < U64_LIMIT && |written| + remaining == bodySize
    }

    /** `new(size)`: all of `size` still to write. */
    constructor (size: nat)
      requires size < U64_LIMIT
      ensures remaining == size && bodySize == size && written == [] && Valid()
    {
      remaining := size;
      bodySize := size;
      written := [];
    }

    /**
     * `write`: refused with InvalidInput once the announced size is reached,
     * without touching the stream; otherwise sends at most min(remaining,
     * unsent) bytes and lowers `remaining` by what was sent, even on error.
     */
    method Write(buffer: seq<byte>, pos: nat, conn: WriteableStream) returns (newPos: nat, r: Result<(), ErrorKind>)
      requires Valid() && pos <= |buffer|
      modifies this, conn
      ensures Valid()
      ensures pos <= newPos <= |buffer| && newPos - pos <= old(remaining)
      ensures conn.sent == old(conn.sent) + buffer[pos..newPos]
      ensures written == old(written) + buffer[pos..newPos]
      ensures remaining == old(remaining) - (newPos - pos)
      ensures old(remaining) == 0 ==> r == Err(InvalidInput) && newPos == pos && conn.budget == old(conn.budget)
      ensures old(remaining) == 0 ==> conn.lastWrite == old(conn.lastWrite)
      ensures old(remaining) > 0 ==> r == conn.lastWrite
      ensures old(remaining) > 0 && r.Ok? ==> newPos == Min(pos + old(remaining), |buffer|)
    {
      if remaining == 0 {
        assert buffer[pos..pos] == [];
        return pos, Err(InvalidInput);
      }
      var toWrite := if remaining > |buffer| - pos then |buffer| - pos else remaining;
      newPos, r := conn.Write(buffer[..pos + toWrite], pos);
      assert buffer[..pos + toWrite][pos..newPos] == buffer[pos..newPos];
      remaining := remaining - (newPos - pos);
      written := written + buffer[pos..newPos];
    }

    /** `finalize`: InvalidInput while bytes of the announced size are missing; no I/O. */
    method Finalize() returns (r: Result<bool, ErrorKind>)
      requires Valid()
      ensures r == if remaining > 0 then Err(InvalidInput) else Ok(true)
      ensures r.Ok? ==> |written| == bodySize
    {
      r := if remaining > 0 then Err(InvalidInput) else Ok(true);
    }
  }
}
