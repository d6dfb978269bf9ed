/**
 * The `std::io` reader and writer the later parts of the crate are generic
 * over (`Read`, `BufRead`, `Write`), as one concrete source and one concrete
 * sink. A source holds the bytes still to come and what reading past them
 * reports: nothing (end of stream) or an error. A sink appends what it is
 * given, unless it is broken.
 */
module Io {
  import opened Wrappers
  import opened Bytes
  import opened IoError

  class Source {
    /** The bytes not consumed yet. */
    var input: seq<byte>
    /** What reading past `input` reports: None is the end of the stream. */
    const failure: Option<ErrorKind>

    constructor (data: seq<byte>, failure: Option<ErrorKind>)
      ensures input == data && this.failure == failure
    {
      input := data;
      this.failure := failure;
    }

    /** The error the stream reports at its end when a read needs more bytes. */
    function EofError(): ErrorKind
      reads this
    {
      if failure.Some? then failure.value else UnexpectedEof
    }

    /** `BufRead::fill_buf`: a non-empty prefix of the input, empty at the end of the stream. */
    method FillBuf() returns (r: Result<seq<byte>, ErrorKind>)
      ensures input != [] ==> r.Ok? && r.value != [] && StartsWith(input, r.value)
      ensures input == [] ==> r == if failure.Some? then Err(failure.value) else Ok([])
    {
      if input != [] {
        return Ok(input);
      }
      r := if failure.Some? then Err(failure.value) else Ok([]);
    }

    /** `BufRead::consume`. */
    method Consume(n: nat)
      requires n <= |input|
      modifies this
      ensures input == old(input)[n..]
    {
      input := input[n..];
    }

    /** `Read::read` into a buffer of `max` bytes: no more than `max` bytes, and none only at the end. */
    method Read(max: nat) returns (data: seq<byte>, r: Result<(), ErrorKind>)
      modifies this
      ensures |data| <= max && old(input) == data + input
      ensures r.Err? ==> data == [] && old(input) == [] && 0 < max && failure == Some(r.error)
      ensures r.Ok? && data == [] ==> max == 0 || old(input) == []
    {
      if max > 0 && input == [] && failure.Some? {
        return [], Err(failure.value);
      }
      var n := Min(max, |input|);
      data := input[..n];
      input := input[n..];
      r := Ok(());
    }

    /** `Read::read_exact`: exactly `n` bytes, or the stream's end error after taking what there was. */
    method ReadExact(n: nat) returns (data: seq<byte>, r: Result<(), ErrorKind>)
      modifies this
      ensures n <= |old(input)| ==> r.Ok? && data == old(input)[..n] && input == old(input)[n..]
      ensures |old(input)| < n ==> r == Err(EofError()) && input == []
    {
      if n <= |input| {
        data := input[..n];
        input := input[n..];
        return data, Ok(());
      }
      data, input := [], [];
      r := Err(EofError());
    }

    /** `Read::read_to_end`: everything up to the end of the stream. */
    method ReadToEnd() returns (data: seq<byte>, r: Result<(), ErrorKind>)
      modifies this
      ensures input == [] && data == old(input)
      ensures r == if failure.Some? then Err(failure.value) else Ok(())
    {
      data, input := input, [];
      r := if failure.Some? then Err(failure.value) else Ok(());
    }
  }

  class Sink {
    /** Everything written so far. */
    var output: seq<byte>
    /** The error every write reports when the sink is broken. */
    const failure: Option<ErrorKind>

    constructor (failure: Option<ErrorKind>)
      ensures output == [] && this.failure == failure
    {
      output := [];
      this.failure := failure;
    }

    /** `Write::write`: takes all of `data` unless broken. */
    method Write(data: seq<byte>) returns (r: Result<nat, ErrorKind>)
      modifies this
      ensures r.Ok? ==> r.value <= |data| && output == old(output) + data[..r.value]
      ensures r.Err? ==> output == old(output) && failure == Some(r.error)
      ensures failure.None? ==> r == Ok(|data|)
    {
      if failure.Some? {
        return Err(failure.value);
      }
      output := output + data;
      assert data[..|data|] == data;
      r := Ok(|data|);
    }

    /** `Write::write_all`. */
    method WriteAll(data: seq<byte>) returns (r: Result<(), ErrorKind>)
      modifies this
      ensures r.Ok? ==> output == old(output) + data
      ensures r.Err? ==> output == old(output) && failure == Some(r.error)
      ensures failure.None? <==> r.Ok?
    {
      if failure.Some? {
        return Err(failure.value);
      }
      output := output + data;
      r := Ok(());
    }

    /** `Write::flush`. */
    method Flush() returns (r: Result<(), ErrorKind>)
      ensures r == if failure.Some? then Err(failure.value) else Ok(())
    {
      r := if failure.Some? then Err(failure.value) else Ok(());
    }
  }
}
