/**
 * `LegacyBodyReader` and `LegacyBodyWriter` of `src/legacy_body.rs`: a body
 * delimited by the connection closing (section 3.3.3 of RFC 7230), tracked by
 * a single `completed` flag.
 */
module LegacyBody {
  import opened Wrappers
  import opened Bytes
  import opened IoError
  import opened Streams

  class LegacyBodyReader {
    var completed: bool

    /** `new`: not completed. */
    constructor ()
      ensures !completed
    {
      completed := false;
    }

    /** `size`: the length of a close-delimited body is not known. */
    function Size(): (r: Option<nat>)
      ensures r.None?
    {
      None
    }

    /**
     * `read`: once completed, Ok(true) without touching the stream. Otherwise
     * reads into the whole free part of the buffer; the end of the stream
     * completes the body and reads as Ok(true), any other error is passed on
     * and leaves the body open, and a successful read is Ok(false).
     */
    method Read(buffer: array<byte>, pos: nat, conn: ReadableStream) returns (newPos: nat, r: Result<bool, ErrorKind>)
      requires pos <= buffer.Length
      modifies this, buffer, conn
      ensures pos <= newPos <= buffer.Length
      ensures buffer[..] == old(buffer[..])[..pos] + buffer[pos..newPos] + old(buffer[..])[newPos..]
      ensures old(conn.pending) == buffer[pos..newPos] + conn.pending
      ensures old(completed) ==> r == Ok(true) && completed && newPos == pos && conn.pending == old(conn.pending)
      ensures !old(completed) ==> (completed <==> r == Ok(true))
      ensures !old(completed) ==> (r == Ok(false) <==> conn.lastRead.Ok?)
      ensures !old(completed) ==> (r == Ok(true) <==> conn.lastRead == Err(UnexpectedEof))
      ensures !old(completed) && r.Err? ==> conn.lastRead == Err(r.error)
      ensures r.Err? ==> r.error != UnexpectedEof && !completed
    {
      if completed {
        return pos, Ok(true);
      }
      var result;
      newPos, result := conn.Read(buffer, pos, buffer.Length);
      assert old(conn.pending) == old(conn.pending)[..newPos - pos] + old(conn.pending)[newPos - pos..];
      match result {
        case Err(UnexpectedEof) =>
          completed := true;
          r := Ok(true);
        case Err(error) =>
          r := Err(error);
        case Ok(_) =>
          r := Ok(false);
      }
    }
  }

  class LegacyBodyWriter {
    var completed: bool

    /** `new`: not completed. */
    constructor ()
      ensures !completed
    {
      completed := false;
    }

    /** `write`: the buffer and position go to the stream unchanged, until the body is finalized. */
    method Write(buffer: seq<byte>, pos: nat, conn: WriteableStream) returns (newPos: nat, r: Result<(), ErrorKind>)
      requires pos <= |buffer|
      modifies conn
      ensures pos <= newPos <= |buffer|
      ensures conn.sent == old(conn.sent) + buffer[pos..newPos]
      ensures completed ==> r == Err(InvalidInput) && newPos == pos && conn.budget == old(conn.budget)
      ensures completed ==> conn.lastWrite == old(conn.lastWrite)
      ensures !completed ==> r == conn.lastWrite
      ensures !completed && r.Ok? ==> newPos == |buffer|
    {
      if completed {
        assert buffer[pos..pos] == [];
        return pos, Err(InvalidInput);
      }
      newPos, r := conn.Write(buffer, pos);
    }

    /** `finalize`: marks the body complete, with no I/O; Ok(true) every time. */
    method Finalize() returns (r: Result<bool, ErrorKind>)
      modifies this
      ensures completed && r == Ok(true)
    {
      completed := true;
      r := Ok(true);
    }
  }
}
