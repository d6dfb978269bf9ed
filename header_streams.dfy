/**
 * The reader and writer halves shared by `src/request_header.rs` and
 * `src/response_header.rs`: `RequestHeaderReader`/`ResponseHeaderReader`
 * receive a whole header into a buffer of fixed size, and
 * `RequestHeaderWriter`/`ResponseHeaderWriter` send a serialized header. Both
 * files hold the same code for these types, so it is modelled once here; the
 * serialization loop of `into_writer`, also written twice, is `Serialize`.
 */
module HeaderStreams {
  import opened Wrappers
  import opened Bytes
  import opened IoError
  import opened Streams
  import opened Parsers

  /** `RequestHeaderReader`/`ResponseHeaderReader`: a buffer and how much of it is filled. */
  class HeaderReader {
    var data: seq<byte>
    var position: nat

    ghost predicate Valid()
      reads this
    {
      position <= |data|
    }

    /** `new(max_header_size)`: a zeroed buffer of exactly that size, nothing received yet. */
    constructor (maxHeaderSize: nat)
      ensures Valid()
      ensures |data| == maxHeaderSize && position == 0
      ensures forall i | 0 <= i < |data| :: data[i] == 0
    {
      data := seq(maxHeaderSize, _ => 0);
      position := 0;
    }

    /**
     * `read(connection, timeout)`: receives into the buffer until "\r\n\r\n".
     * On success the buffer is cut just after the first "\r\n\r\n" received;
     * a full buffer without one (NotFound) becomes InvalidData, and any other
     * error passes through with the buffer and position kept for a retry.
     */
    method Read(connection: ReadableStream) returns (r: Result<(), ErrorKind>)
      requires Valid()
      modifies this, connection
      ensures Valid()
      ensures position >= old(position) && |data| <= old(|data|)
      ensures data[..old(position)] == old(data[..position])
      ensures old(connection.pending) == data[old(position)..position] + connection.pending
      ensures r.Ok? ==> |data| == position && EndsWith(data, CRLF_CRLF)
      ensures r.Ok? ==> forall k | old(position) < k < position :: !EndsAt(data, k, CRLF_CRLF)
      ensures r.Err? ==> |data| == old(|data|) && r.error != NotFound
      ensures r == if connection.lastRead == Err(NotFound) then Err(InvalidData) else connection.lastRead
    {
      var filled, newPos, received := connection.ReadUntil(data, position, CRLF_CRLF);
      data, position := filled, newPos;
      match received
      case Err(NotFound) =>
        r := Err(InvalidData);
      case Err(error) =>
        r := Err(error);
      case Ok(_) =>
        ghost var full := data;
        data := data[..position];
        forall k | old(position) < k < position
          ensures !EndsAt(data, k, CRLF_CRLF)
        {
          assert data[..k] == full[..k];
          assert !EndsAt(full, k, CRLF_CRLF);
        }
        r := received;
    }
  }

  /** `RequestHeaderWriter`/`ResponseHeaderWriter`: the serialized header and how much of it is sent. */
  class HeaderWriter {
    var data: seq<byte>
    var position: nat

    ghost predicate Valid()
      reads this
    {
      position <= |data|
    }

    /** The writer `into_writer` returns: the serialized bytes, nothing sent yet. */
    constructor (serialized: seq<byte>)
      ensures Valid()
      ensures data == serialized && position == 0
    {
      data := serialized;
      position := 0;
    }

    /**
     * `write(connection, timeout)`: sends the rest of the bytes from the
     * current position; the position records the progress, so a call after
     * an error resumes where the last one stopped.
     */
    method Write(connection: WriteableStream) returns (r: Result<(), ErrorKind>)
      requires Valid()
      modifies this, connection
      ensures Valid()
      ensures data == old(data) && old(position) <= position
      ensures connection.sent == old(connection.sent) + data[old(position)..position]
      ensures r.Ok? ==> position == |data|
      ensures r == connection.lastWrite
    {
      var newPos;
      newPos, r := connection.Write(data, position);
      position := newPos;
    }
  }

  /**
   * The loop of `into_writer`: the start line and "\r\n", then "key: value\r\n"
   * for each field in the map's iteration order, then a final "\r\n".
   */
  method Serialize(start: StartLine, fields: Fields, order: seq<seq<byte>>) returns (serialized: seq<byte>)
    requires forall k | k in order :: k in fields
    ensures serialized == HeaderText(start, fields, order)
  {
    serialized := StartLineText(start) + CRLF;
    assert HeaderLines(start, fields, order[..0]) == [StartLineText(start)];
    for i := 0 to |order|
      invariant serialized == Join(HeaderLines(start, fields, order[..i]), CRLF) + CRLF
    {
      var key := order[i];
      SerializeStep(start, fields, order, i);
      serialized := serialized + FieldLine(key, fields[key]) + CRLF;
    }
    serialized := serialized + CRLF;
    assert order[..|order|] == order;
    assert CRLF + CRLF == CRLF_CRLF;
  }

  /** One more field adds its line, and a line break, after the text of the fields before it. */
  lemma SerializeStep(start: StartLine, fields: Fields, order: seq<seq<byte>>, i: nat)
    requires forall k | k in order :: k in fields
    requires i < |order|
    ensures Join(HeaderLines(start, fields, order[..i + 1]), CRLF) + CRLF
      == Join(HeaderLines(start, fields, order[..i]), CRLF) + CRLF + FieldLine(order[i], fields[order[i]]) + CRLF
  {
    var before := order[..i];
    var after := order[..i + 1];
    assert after[..|after| - 1] == before;
    var line := FieldLine(order[i], fields[order[i]]);
    assert FieldLines(fields, after) == FieldLines(fields, before) + [line];
    assert HeaderLines(start, fields, after) == HeaderLines(start, fields, before) + [line];
    JoinAppend(HeaderLines(start, fields, before), line, CRLF);
  }
}
