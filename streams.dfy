/**
 * The connection capability the body codecs drive: a readable stream with
 * `read` and `read_until(pattern)`, and a writeable stream with `write`.
 * Each operation is bounded by a timeout and is resumable: the caller passes a
 * buffer and a position, and after an error the same buffer and position can be
 * passed again.
 *
 * Callers rely only on the contracts, which allow any progress between nothing
 * and everything requested and an error at any point. The bodies are one simple
 * transport: `pending` holds what the peer has sent, and `budget` counts the
 * operations that still complete before the caller's deadline. Every operation
 * that returns `Ok` spends one unit of budget, so a codec loop that stops on the
 * first error ends.
 */
module Streams {
  import opened Wrappers
  import opened Bytes
  import opened IoError

  /** Copies `data` into `buffer` from `pos` on, leaving every other element as it was. */
  method Fill(buffer: array<byte>, pos: nat, data: seq<byte>)
    requires pos + |data| <= buffer.Length
    modifies buffer
    ensures buffer[..] == old(buffer[..])[..pos] + data + old(buffer[..])[pos + |data|..]
  {
    forall i | pos <= i < pos + |data| {
      buffer[i] := data[i - pos];
    }
    assert buffer[..] == old(buffer[..])[..pos] + data + old(buffer[..])[pos + |data|..];
  }

  class ReadableStream {
    /** Bytes the peer has sent that have not been read yet. */
    var pending: seq<byte>
    /** Operations that still complete before the deadline. */
    var budget: nat
    /** The outcome of the most recent `read` or `read_until`, so a caller can state what it made of it. */
    ghost var lastRead: Result<(), ErrorKind>

    constructor (data: seq<byte>, operations: nat)
      ensures pending == data && budget == operations
    {
      pending := data;
      budget := operations;
      lastRead := Ok(());
    }

    /**
     * `read(&mut buffer[..end], &mut pos, timeout)`: receives between 0 and
     * `end - pos` bytes into `buffer[pos..]` and advances the position past them.
     */
    method Read(buffer: array<byte>, pos: nat, end: nat) returns (newPos: nat, r: Result<(), ErrorKind>)
      requires pos <= end <= buffer.Length
      modifies this, buffer
      ensures pos <= newPos <= end
      ensures newPos - pos <= |old(pending)|
      ensures buffer[..] == old(buffer[..])[..pos] + buffer[pos..newPos] + old(buffer[..])[newPos..]
      ensures buffer[pos..newPos] == old(pending)[..newPos - pos]
      ensures pending == old(pending)[newPos - pos..]
      ensures budget <= old(budget) && (r.Ok? ==> budget < old(budget))
      ensures lastRead == r
    {
      if budget == 0 || (pending == [] && pos < end) {
        newPos, r := pos, if budget == 0 then Err(TimedOut) else Err(UnexpectedEof);
        assert buffer[..] == buffer[..pos] + buffer[pos..];
      } else {
        var n := Min(end - pos, |pending|);
        Fill(buffer, pos, pending[..n]);
        newPos := pos + n;
        pending := pending[n..];
        budget := budget - 1;
        r := Ok(());
      }
      lastRead := r;
    }

    /**
     * `read_until(&mut buffer, &mut pos, pattern, timeout)`: receives bytes into
     * `buffer[pos..]` until `pattern` ends inside the buffer. On success the
     * pattern ends exactly at the new position and nowhere earlier among the
     * bytes received; a full buffer without a match is an error.
     */
    method ReadUntil(buffer: seq<byte>, pos: nat, pattern: seq<byte>)
      returns (filled: seq<byte>, newPos: nat, r: Result<(), ErrorKind>)
      requires pos <= |buffer| && |pattern| > 0
      modifies this
      ensures |filled| == |buffer| && pos <= newPos <= |buffer|
      ensures filled[..pos] == buffer[..pos] && filled[newPos..] == buffer[newPos..]
      ensures old(pending) == filled[pos..newPos] + pending
      ensures forall k | pos < k < newPos :: !EndsAt(filled, k, pattern)
      ensures r.Ok? ==> EndsAt(filled, newPos, pattern)
      ensures r.Err? && pos < newPos ==> !EndsAt(filled, newPos, pattern)
      ensures budget <= old(budget) && (r.Ok? ==> budget < old(budget))
      ensures lastRead == r
    {
      if budget == 0 {
        lastRead := Err(TimedOut);
        return buffer, pos, Err(TimedOut);
      }
      budget := budget - 1;
      filled, newPos := buffer, pos;
      while newPos < |filled| && pending != []
        invariant |filled| == |buffer| && pos <= newPos <= |buffer|
        invariant filled[..pos] == buffer[..pos] && filled[newPos..] == buffer[newPos..]
        invariant old(pending) == filled[pos..newPos] + pending
        invariant forall k | pos < k <= newPos :: !EndsAt(filled, k, pattern)
        invariant budget == old(budget) - 1
        decreases |pending|
      {
        ghost var before := filled;
        filled := filled[newPos := pending[0]];
        pending := pending[1..];
        newPos := newPos + 1;
        forall k | pos < k < newPos
          ensures !EndsAt(filled, k, pattern)
        {
          assert filled[..k] == before[..k];
          assert !EndsAt(before, k, pattern);
        }
        if EndsAt(filled, newPos, pattern) {
          lastRead := Ok(());
          return filled, newPos, Ok(());
        }
      }
      r := if newPos == |filled| then Err(NotFound) else Err(UnexpectedEof);
      lastRead := r;
    }
  }

  class WriteableStream {
    /** Everything sent to the peer so far. */
    var sent: seq<byte>
    /** Operations that still complete before the deadline. */
    var budget: nat
    /** The outcome of the most recent `write`, so a caller can state what it made of it. */
    ghost var lastWrite: Result<(), ErrorKind>

    constructor (operations: nat)
      ensures sent == [] && budget == operations
    {
      sent := [];
      budget := operations;
      lastWrite := Ok(());
    }

    /**
     * `write(data, &mut pos, timeout)`: sends a prefix of `data[pos..]` and
     * advances the position past it; on success everything has been sent.
     */
    method Write(data: seq<byte>, pos: nat) returns (newPos: nat, r: Result<(), ErrorKind>)
      requires pos <= |data|
      modifies this
      ensures pos <= newPos <= |data|
      ensures sent == old(sent) + data[pos..newPos]
      ensures r.Ok? ==> newPos == |data|
      ensures budget <= old(budget) && (r.Ok? ==> budget < old(budget))
      ensures lastWrite == r
    {
      if budget == 0 {
        newPos, r := pos, Err(TimedOut);
      } else {
        sent := sent + data[pos..];
        budget := budget - 1;
        newPos, r := |data|, Ok(());
      }
      lastWrite := r;
    }
  }
}
