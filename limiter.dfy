/**
 * `Limiter` of `src/limiter.rs`: a wrapper that caps the bytes read from and written to an
 * inner I/O element. The inner element is modelled by its two halves, a
 * source and a sink.
 */
module Limiter {
  import opened Wrappers
  import opened Bytes
  import opened IoError
  import opened Io

  class Limiter {
    const reader: Source
    const writer: Sink
    var readLeft: nat
    var writeLeft: nat
    ghost const readMax: nat
    ghost const writeMax: nat
    /** Bytes the caller has read and written through the limiter so far. */
    ghost var readTotal: nat
    ghost var writeTotal: nat

    ghost predicate Valid()
      reads this
    {
      readTotal + readLeft == readMax && writeTotal + writeLeft == writeMax
    }

    /** `new(io, read_max, write_max)`. */
    constructor (reader: Source, writer: Sink, readMax: nat, writeMax: nat)
      ensures this.reader == reader && this.writer == writer
      ensures readLeft == readMax && writeLeft == writeMax && readTotal == 0 && writeTotal == 0
      ensures this.readMax == readMax && this.writeMax == writeMax && Valid()
    {
      this.reader := reader;
      this.writer := writer;
      readLeft, writeLeft := readMax, writeMax;
      this.readMax, this.writeMax := readMax, writeMax;
      readTotal, writeTotal := 0, 0;
    }

    /**
     * `Read::read` into a buffer of `max` bytes: asks the inner reader for at
     * most min(read_left, max) and lowers `read_left` by what it returned, so
     * no more than `read_max` bytes are ever read through `read`, and once
     * the limit is reached every read reports the end of the stream (Ok(0));
     * an error is the inner reader's and changes nothing. The `BufRead` path (`FillBuf`/`Consume`) does not count
     * against the limit, as in the source.
     */
    method Read(max: nat) returns (data: seq<byte>, r: Result<nat, ErrorKind>)
      requires Valid()
      modifies this, reader
      ensures Valid() && writeLeft == old(writeLeft) && writeTotal == old(writeTotal)
      ensures |data| <= Min(old(readLeft), max) && old(reader.input) == data + reader.input
      ensures r.Ok? ==> r.value == |data| && readLeft == old(readLeft) - |data| && readTotal == old(readTotal) + |data|
      ensures r.Err? ==> data == [] && readLeft == old(readLeft) && readTotal == old(readTotal)
      ensures r.Err? ==> reader.failure == Some(r.error) && old(reader.input) == [] && Min(old(readLeft), max) > 0
      ensures r.Ok? && data == [] ==> Min(old(readLeft), max) == 0 || old(reader.input) == []
      ensures old(readLeft) == 0 ==> r == Ok(0) && reader.input == old(reader.input)
    {
      var toRead := Min(readLeft, max);
      var e;
      data, e := reader.Read(toRead);
      if e.Err? {
        return [], Err(e.error);
      }
      readLeft := readLeft - |data|;
      readTotal := readTotal + |data|;
      r := Ok(|data|);
    }

    /** `BufRead::fill_buf`: passed through; the counters stay as they are. */
    method FillBuf() returns (r: Result<seq<byte>, ErrorKind>)
      ensures reader.input != [] ==> r.Ok? && r.value != [] && StartsWith(reader.input, r.value)
      ensures reader.input == [] ==> r == if reader.failure.Some? then Err(reader.failure.value) else Ok([])
    {
      r := reader.FillBuf();
    }

    /** `BufRead::consume`: passed through; the counters stay as they are. */
    method Consume(n: nat)
      requires n <= |reader.input|
      modifies reader
      ensures reader.input == old(reader.input)[n..]
    {
      reader.Consume(n);
    }

    /**
     * `Write::write`: offers the inner writer at most min(write_left, |data|)
     * bytes and lowers `write_left` by what it took; an error is the inner
     * writer's and changes nothing.
     */
    method Write(data: seq<byte>) returns (r: Result<nat, ErrorKind>)
      requires Valid()
      modifies this, writer
      ensures Valid() && readLeft == old(readLeft) && readTotal == old(readTotal)
      ensures r.Ok? ==> r.value <= Min(old(writeLeft), |data|) && writer.output == old(writer.output) + data[..r.value]
      ensures r.Ok? ==> writeLeft == old(writeLeft) - r.value && writeTotal == old(writeTotal) + r.value
      ensures r.Err? ==> writer.output == old(writer.output) && writeLeft == old(writeLeft) && writeTotal == old(writeTotal)
      ensures r.Err? ==> writer.failure == Some(r.error)
      ensures writer.failure.None? ==> r == Ok(Min(old(writeLeft), |data|))
    {
      var toWrite := Min(writeLeft, |data|);
      var e := writer.Write(data[..toWrite]);
      if e.Err? {
        return Err(e.error);
      }
      assert data[..toWrite][..e.value] == data[..e.value];
      writeLeft := writeLeft - e.value;
      writeTotal := writeTotal + e.value;
      r := Ok(e.value);
    }

    /** `Write::flush`: passed through. */
    method Flush() returns (r: Result<(), ErrorKind>)
      ensures r == if writer.failure.Some? then Err(writer.failure.value) else Ok(())
    {
      r := writer.Flush();
    }
  }
}
