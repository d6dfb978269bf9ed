/**
 * `src/header/header.rs`: the `Data`-based HTTP/1.x header. A header is a
 * status line of three `Data<Ascii>` parts and a map from `HeaderFieldKey`s to
 * `Ascii` values; it is found in a byte stream by its end "\r\n\r\n", parsed
 * with `HttpError` results, written to a sink, and converted into a request
 * header (the middle part a valid URI) or a response header (the middle part
 * a decimal status code that fits in `u16`).
 */
module DataHeader {
  import opened Wrappers
  import opened Bytes
  import opened Encodings
  import opened HttpError
  import opened IoError
  import opened Io
  import opened SliceExt
  import opened IterExt
  import C = Ascii
  import FieldMap
  import IoExt
  import Numbers
  import D = EncodedData

  const COLON: byte := ':' as int
  const SPACE: seq<byte> := [SP]
  /** What separates a key from its value when a field is written. */
  const SEPARATOR: seq<byte> := [COLON, SP]

  /** `Header`: the three status-line parts and the fields. */
  datatype Header = Header(statusLine: (seq<byte>, seq<byte>, seq<byte>), fields: FieldMap.Fields) {
    /** What the `Data` types of the parts guarantee. */
    predicate Valid() {
      && AsciiValid(statusLine.0) && AsciiValid(statusLine.1) && AsciiValid(statusLine.2)
      && FieldMap.Valid(fields)
    }
  }

  // ---------------------------------------------------------------- scan and read

  /**
   * `scan(data)`: the bytes up to and including the first "\r\n\r\n", and the
   * bytes after it; None when `data` has no "\r\n\r\n".
   */
  function Scan(data: seq<byte>): (r: Option<(seq<byte>, seq<byte>)>)
    ensures r.None? <==> forall j | 0 <= j < |data| :: !MatchesAt(data, j, CRLF_CRLF)
    ensures r.Some? ==> r.value.0 + r.value.1 == data && EndsWith(r.value.0, CRLF_CRLF)
    ensures r.Some? ==> forall j | 0 <= j < |r.value.0| - 4 :: !MatchesAt(data, j, CRLF_CRLF)
  {
    FindSpec(data, CRLF_CRLF);
    match Find(data, CRLF_CRLF)
    case None => None
    case Some(i) =>
      assert data[..i + 4] + data[i + 4..] == data;
      Some((data[..i + 4], data[i + 4..]))
  }

  /**
   * `read(source, buf)`: `read_until(buf, "\r\n\r\n")`. Some(n) when the
   * header end was read, the n header bytes at the front of `buf` and nothing
   * after them consumed; None when the stream ended or `buf` filled up first.
   */
  method Read(src: Source, buf: array<byte>) returns (r: Result<Option<nat>, ErrorKind>)
    modifies src, buf
    ensures EndsWith(old(src.input), src.input)
    ensures |old(src.input)| - |src.input| <= buf.Length
    ensures forall i | 0 <= i < |old(src.input)| - |src.input| :: buf[i] == old(src.input)[i]
    ensures var w := IoExt.Window(old(src.input), buf.Length);
      IoExt.UntilEnd(w, CRLF_CRLF).Some? ==>
        r == Ok(IoExt.UntilEnd(w, CRLF_CRLF)) && |old(src.input)| - |src.input| == IoExt.UntilEnd(w, CRLF_CRLF).value
    ensures var w := IoExt.Window(old(src.input), buf.Length);
      IoExt.UntilEnd(w, CRLF_CRLF).None? ==>
        |old(src.input)| - |src.input| == |w| &&
        r == if |w| == buf.Length || src.failure.None? || src.failure == Some(UnexpectedEof) then Ok(None) else Err(src.failure.value)
  {
    r := IoExt.ReadUntil(src, buf, CRLF_CRLF);
  }

  // ---------------------------------------------------------------- parse

  /**
   * The status line: trimmed, then split at its first two spaces into
   * exactly three parts (the third keeps any further spaces), each a valid
   * `Ascii`. Fewer parts is `ProtocolViolation`, an invalid part
   * `InvalidEncoding`.
   */
  function ParseStatusLine(line: seq<byte>): (r: Result<(seq<byte>, seq<byte>, seq<byte>), HttpError>)
    ensures r.Ok? ==> AsciiValid(r.value.0) && AsciiValid(r.value.1) && AsciiValid(r.value.2)
  {
    match Exactly(Pieces(Trim(line), SPACE, 3), 3)
    case None => Err(ProtocolViolation)
    case Some(parts) => StatusParts(parts)
  }

  /** The three status-line parts, each converted to `Data<Ascii>`. */
  function StatusParts(parts: seq<seq<byte>>): (r: Result<(seq<byte>, seq<byte>, seq<byte>), HttpError>)
    requires |parts| == 3
    ensures r.Ok? <==> AsciiValid(parts[0]) && AsciiValid(parts[1]) && AsciiValid(parts[2])
    ensures r.Ok? ==> r.value == (parts[0], parts[1], parts[2])
    ensures r.Err? ==> r.error == InvalidEncoding
  {
    var s0 :- D.TryFrom(Ascii, parts[0]);
    var s1 :- D.TryFrom(Ascii, parts[1]);
    var s2 :- D.TryFrom(Ascii, parts[2]);
    Ok((s0.bytes, s1.bytes, s2.bytes))
  }

  /**
   * What the status line splits into: fewer than three parts is
   * `ProtocolViolation` and an invalid part `InvalidEncoding`; on success the
   * parts joined with single spaces are the trimmed line, and the first two
   * hold no space.
   */
  lemma StatusLineSplit(line: seq<byte>)
    ensures var r := ParseStatusLine(line);
      && (r == Err(ProtocolViolation) <==> |Pieces(Trim(line), SPACE, 3)| != 3)
      && (r.Err? ==> r.error == ProtocolViolation || r.error == InvalidEncoding)
    ensures var r := ParseStatusLine(line);
      r.Ok? ==> Join([r.value.0, r.value.1, r.value.2], SPACE) == Trim(line) && Excludes(r.value.0, SP) && Excludes(r.value.1, SP)
  {
    var parts := Pieces(Trim(line), SPACE, 3);
    if |parts| == 3 {
      assert ParseStatusLine(line) == StatusParts(parts);
      PiecesJoin(Trim(line), SPACE, 3);
      PiecesClean(Trim(line), SPACE, 3);
      FindByteNone(parts[0], SP);
      FindByteNone(parts[1], SP);
      assert parts == [parts[0], parts[1], parts[2]];
    } else {
      assert ParseStatusLine(line) == Err(ProtocolViolation);
    }
  }

  /**
   * One field line: split at its first ':'; the key must be a valid
   * `HeaderFieldKey` and the rest, trimmed, a valid `Ascii`. A line without
   * ':' is `ProtocolViolation`, an invalid key or value `InvalidEncoding`.
   */
  function ParseFieldLine(line: seq<byte>): (r: Result<(seq<byte>, seq<byte>), HttpError>)
    ensures r.Ok? ==> KeyValid(r.value.0) && AsciiValid(r.value.1)
  {
    match CollectMin(Pieces(line, [COLON], 2), 2)
    case None => Err(ProtocolViolation)
    case Some(keyValue) => FieldParts(keyValue[0], keyValue[1])
  }

  /** The key as a `Data<HeaderFieldKey>` and the rest, trimmed, as a `Data<Ascii>`. */
  function FieldParts(key: seq<byte>, rest: seq<byte>): (r: Result<(seq<byte>, seq<byte>), HttpError>)
    ensures r.Ok? <==> KeyValid(key) && AsciiValid(Trim(rest))
    ensures r.Ok? ==> r.value == (key, Trim(rest))
    ensures r.Err? ==> r.error == InvalidEncoding
  {
    var k :- D.TryFrom(HeaderFieldKey, key);
    var value :- D.TryFrom(Ascii, Trim(rest));
    Ok((k.bytes, value.bytes))
  }

  /**
   * What a field line splits into: without ':' it is `ProtocolViolation`;
   * otherwise the key is everything before the first ':' and the value the
   * rest trimmed, or `InvalidEncoding` when either is invalid.
   */
  lemma FieldLineSplit(line: seq<byte>)
    ensures Find(line, [COLON]).None? ==> ParseFieldLine(line) == Err(ProtocolViolation)
    ensures Find(line, [COLON]).Some? ==>
      var i := Find(line, [COLON]).value;
      ParseFieldLine(line) ==
        if KeyValid(line[..i]) && AsciiValid(Trim(line[i + 1..])) then Ok((line[..i], Trim(line[i + 1..])))
        else Err(InvalidEncoding)
  {
  }

  /** What parsing one field line gives: the key and the value, or the error. */
  type LineParser = seq<byte> -> Result<(seq<byte>, seq<byte>), HttpError>

  /**
   * The fold of the `while let` loop, for any line parser: each line's key
   * and value inserted in turn, so a later line replaces the value of an
   * earlier key equal up to case; the first line that fails stops it.
   */
  function InsertEach(lines: seq<seq<byte>>, parse: LineParser): Result<FieldMap.Fields, HttpError> {
    if |lines| == 0 then Ok(map[])
    else
      match InsertEach(lines[..|lines| - 1], parse)
      case Err(e) => Err(e)
      case Ok(fields) =>
        match parse(lines[|lines| - 1])
        case Err(e) => Err(e)
        case Ok(keyValue) => Ok(FieldMap.Insert(fields, keyValue.0, keyValue.1))
  }

  /** A parser that only yields valid keys and values only builds valid maps. */
  lemma {:induction false} InsertEachValid(lines: seq<seq<byte>>, parse: LineParser)
    requires forall line :: parse(line).Ok? ==> KeyValid(parse(line).value.0) && AsciiValid(parse(line).value.1)
    ensures InsertEach(lines, parse).Ok? ==> FieldMap.Valid(InsertEach(lines, parse).value)
    decreases |lines|
  {
    if |lines| > 0 {
      InsertEachValid(lines[..|lines| - 1], parse);
    }
  }

  /** The fold succeeds exactly when every line parses. */
  lemma {:induction false} InsertEachOk(lines: seq<seq<byte>>, parse: LineParser)
    ensures InsertEach(lines, parse).Ok? <==> forall i | 0 <= i < |lines| :: parse(lines[i]).Ok?
    decreases |lines|
  {
    if |lines| > 0 {
      var n := |lines| - 1;
      var init := lines[..n];
      InsertEachOk(init, parse);
      var all := forall i | 0 <= i < |lines| :: parse(lines[i]).Ok?;
      var before := forall i | 0 <= i < n :: parse(init[i]).Ok?;
      assert all <==> before && parse(lines[n]).Ok? by {
        assert forall i | 0 <= i < n :: init[i] == lines[i];
      }
    }
  }

  /** Once the bytes are split at the header end, `parse` reads only the lines before it. */
  lemma ParsedHead(bytes: seq<byte>, head: seq<byte>, body: seq<byte>)
    requires Pieces(bytes, CRLF_CRLF, 2) == [head, body]
    ensures |Pieces(head, CRLF, USIZE_MAX)| > 0
    ensures Parsed(bytes) == ParsedLines(Pieces(head, CRLF, USIZE_MAX))
  {
    PiecesCount(head, CRLF, USIZE_MAX);
  }

  /** One more line: inserted, or its error, unless the earlier ones failed. */
  lemma InsertStep(lines: seq<seq<byte>>, k: nat, parse: LineParser)
    requires k < |lines|
    ensures InsertEach(lines[..k + 1], parse) ==
      match InsertEach(lines[..k], parse)
      case Err(e) => Err(e)
      case Ok(fields) =>
        match parse(lines[k])
        case Err(e) => Err(e)
        case Ok(keyValue) => Ok(FieldMap.Insert(fields, keyValue.0, keyValue.1))
  {
    var ls := lines[..k + 1];
    assert ls[..|ls| - 1] == lines[..k];
    assert ls[|ls| - 1] == lines[k];
  }

  /** Once a prefix of the lines fails, all of them fail with its error. */
  lemma {:induction false} InsertStopAtError(lines: seq<seq<byte>>, n: nat, parse: LineParser)
    requires n <= |lines| && InsertEach(lines[..n], parse).Err?
    ensures InsertEach(lines, parse) == InsertEach(lines[..n], parse)
    decreases |lines| - n
  {
    if n < |lines| {
      assert lines[..n + 1][..n] == lines[..n];
      InsertStopAtError(lines, n + 1, parse);
    } else {
      assert lines[..n] == lines;
    }
  }

  /** The fields of `Header::parse`: the field lines folded with `ParseFieldLine`. */
  function ParseFields(lines: seq<seq<byte>>): (r: Result<FieldMap.Fields, HttpError>)
    ensures r.Ok? ==> FieldMap.Valid(r.value)
  {
    InsertEachValid(lines, ParseFieldLine);
    InsertEach(lines, ParseFieldLine)
  }

  /** The fields parse exactly when every field line does. */
  lemma FieldsOk(lines: seq<seq<byte>>)
    ensures ParseFields(lines).Ok? <==> forall i | 0 <= i < |lines| :: ParseFieldLine(lines[i]).Ok?
  {
    InsertEachOk(lines, ParseFieldLine);
  }

  /** A header from its lines: the first is the status line, the others are fields. */
  function ParsedLines(lines: seq<seq<byte>>): (r: Result<Header, HttpError>)
    requires |lines| > 0
    ensures r.Ok? ==> r.value.Valid()
  {
    match ParseStatusLine(lines[0])
    case Err(e) => Err(e)
    case Ok(statusLine) =>
      match ParseFields(lines[1..])
      case Err(e) => Err(e)
      case Ok(fields) => Ok(Header(statusLine, fields))
  }

  /**
   * `Header::parse(bytes)`, as a value: the bytes before the first
   * "\r\n\r\n" (`TruncatedData` without one), split into "\r\n"-separated
   * lines.
   */
  function Parsed(bytes: seq<byte>): (r: Result<Header, HttpError>)
    ensures r.Ok? ==> r.value.Valid()
  {
    match CollectMin(Pieces(bytes, CRLF_CRLF, 2), 2)
    case None => Err(TruncatedData)
    case Some(headerBody) =>
      PiecesCount(headerBody[0], CRLF, USIZE_MAX);
      ParsedLines(Pieces(headerBody[0], CRLF, USIZE_MAX))
  }

  /** A piece taken off the front of `lines[k..]` is `lines[k]`, and `lines[k + 1..]` is left. */
  lemma NextOf(lines: seq<seq<byte>>, k: nat, line: seq<byte>, rest: seq<seq<byte>>)
    requires k <= |lines| && lines[k..] == [line] + rest
    ensures k < |lines| && lines[k] == line && rest == lines[k + 1..]
  {
    assert lines[k..][0] == line;
    assert lines[k..][1..] == rest;
  }

  /**
   * The `while let` loop of `Header::parse`: takes the remaining lines from
   * the splitter and inserts one field per line, stopping at the first line
   * that fails.
   */
  method InsertFrom(header: Splitter<byte>, parse: LineParser) returns (r: Result<FieldMap.Fields, HttpError>)
    modifies header
    ensures r == InsertEach(old(header.Rest()), parse)
  {
    ghost var lines := header.Rest();
    var fields: FieldMap.Fields := map[];
    ghost var k := 0;
    while true
      invariant k <= |lines| && header.Rest() == lines[k..]
      invariant InsertEach(lines[..k], parse) == Ok(fields)
      decreases |header.Rest()|
    {
      var line := header.Next();
      if line.None? {
        break;
      }
      NextOf(lines, k, line.value, header.Rest());
      var keyValue := parse(line.value);
      InsertStep(lines, k, parse);
      if keyValue.Err? {
        InsertStopAtError(lines, k + 1, parse);
        return Err(keyValue.error);
      }
      fields := FieldMap.Insert(fields, keyValue.value.0, keyValue.value.1);
      k := k + 1;
    }
    assert lines[..k] == lines;
    r := Ok(fields);
  }

  /** The field lines of `Header::parse`, each read with `ParseFieldLine`. */
  method ParseFieldLines(header: Splitter<byte>) returns (r: Result<FieldMap.Fields, HttpError>)
    modifies header
    ensures r == ParseFields(old(header.Rest()))
  {
    r := InsertFrom(header, ParseFieldLine);
  }

  /**
   * `Header::parse(bytes)`: splits off the header, then walks its lines
   * with a `Splitter`: the status line first, then the fields.
   */
  method Parse(bytes: seq<byte>) returns (r: Result<Header, HttpError>)
    ensures r == Parsed(bytes)
  {
    var headerBody := CollectMin(Pieces(bytes, CRLF_CRLF, 2), 2);
    if headerBody.None? {
      return Err(TruncatedData);
    }
    var header := new Splitter.Split(headerBody.value[0], CRLF);
    ghost var lines := header.Rest();
    PiecesCount(headerBody.value[0], CRLF, USIZE_MAX);
    assert Parsed(bytes) == ParsedLines(lines);
    var first := header.Next();
    if first.None? {
      // the splitter yields at least one line
      assert false;
    }
    assert lines[0] == first.value && header.Rest() == lines[1..];
    var status := ParseStatusLine(first.value);
    if status.Err? {
      return Err(status.error);
    }
    var fields := ParseFieldLines(header);
    if fields.Err? {
      return Err(fields.error);
    }
    r := Ok(Header(status.value, fields.value));
  }

  // ---------------------------------------------------------------- write

  /** A status line as written, without its "\r\n". */
  function StatusText(h: Header): seq<byte> {
    h.statusLine.0 + SPACE + h.statusLine.1 + SPACE + h.statusLine.2
  }

  /** A field line as written, without its "\r\n". */
  function FieldText(key: seq<byte>, value: seq<byte>): seq<byte> {
    key + SEPARATOR + value
  }

  /** The field lines, each with its "\r\n", in the iteration order `order`. */
  function FieldsBytes(fields: FieldMap.Fields, order: seq<seq<byte>>): seq<byte>
    requires forall f | f in order :: f in fields
  {
    if order == [] then []
    else
      var f := order[|order| - 1];
      FieldsBytes(fields, order[..|order| - 1]) + FieldText(fields[f].0, fields[f].1) + CRLF
  }

  /** Everything `write` emits when the fields iterate in `order`. */
  function Serialized(h: Header, order: seq<seq<byte>>): seq<byte>
    requires forall f | f in order :: f in h.fields
  {
    StatusText(h) + CRLF + FieldsBytes(h.fields, order) + CRLF
  }

  /**
   * The status-line writes of `write`: the three parts separated by single
   * spaces and ended by "\r\n". A broken sink fails on the first of them.
   */
  method WriteStatusLine(h: Header, sink: Sink) returns (r: Result<(), ErrorKind>)
    modifies sink
    ensures sink.failure.None? ==> r.Ok? && sink.output == old(sink.output) + StatusText(h) + CRLF
    ensures sink.failure.Some? ==> r == Err(sink.failure.value) && sink.output == old(sink.output)
  {
    r := IoExt.Write(sink, h.statusLine.0);
    if r.Err? {
      return;
    }
    var w := IoExt.Write(sink, SPACE);
    w := IoExt.Write(sink, h.statusLine.1);
    w := IoExt.Write(sink, SPACE);
    w := IoExt.Write(sink, h.statusLine.2);
    w := IoExt.Write(sink, CRLF);
  }

  /** The writes for one field: key, ": ", value and "\r\n". */
  method WriteField(key: seq<byte>, value: seq<byte>, sink: Sink)
    requires sink.failure.None?
    modifies sink
    ensures sink.output == old(sink.output) + FieldText(key, value) + CRLF
  {
    var w := IoExt.Write(sink, key);
    w := IoExt.Write(sink, SEPARATOR);
    w := IoExt.Write(sink, value);
    w := IoExt.Write(sink, CRLF);
  }

  /**
   * `write(sink)` when the fields iterate in `order`: the status line, one
   * "key: value" line per field, and an empty line, each ended by "\r\n";
   * the result counts exactly the bytes emitted. A broken sink fails on the
   * first write, so nothing is emitted.
   */
  method Write(h: Header, sink: Sink, order: seq<seq<byte>>) returns (r: Result<nat, ErrorKind>)
    requires forall f | f in order :: f in h.fields
    modifies sink
    ensures sink.failure.None? ==> r == Ok(|Serialized(h, order)|) && sink.output == old(sink.output) + Serialized(h, order)
    ensures sink.failure.Some? ==> r == Err(sink.failure.value) && sink.output == old(sink.output)
  {
    var w := WriteStatusLine(h, sink);
    if w.Err? {
      return Err(w.error);
    }
    var written := |h.statusLine.0| + |SPACE| + |h.statusLine.1| + |SPACE| + |h.statusLine.2| + |CRLF|;
    ghost var start := old(sink.output) + StatusText(h) + CRLF;
    for i := 0 to |order|
      invariant sink.output == start + FieldsBytes(h.fields, order[..i])
      invariant written == |StatusText(h) + CRLF + FieldsBytes(h.fields, order[..i])|
    {
      var field := h.fields[order[i]];
      WriteField(field.0, field.1, sink);
      written := written + |field.0| + |SEPARATOR| + |field.1| + |CRLF|;
      assert order[..i + 1][..i] == order[..i];
    }
    var e := IoExt.Write(sink, CRLF);
    written := written + |CRLF|;
    assert order[..|order|] == order;
    r := Ok(written);
  }

  // ---------------------------------------------------------------- request and response

  /** `RequestHeader`: a header whose middle status-line part is a valid URI. */
  datatype RequestHeader = RequestHeader(header: Header, uri: seq<byte>)

  /** `ResponseHeader`: a header whose middle status-line part is a `u16` status code. */
  datatype ResponseHeader = ResponseHeader(header: Header, status: nat)

  /**
   * `RequestHeader::try_from(header)`: the header kept whole, its middle part
   * as a `Data<Uri>`; `InvalidEncoding` when that part is not a valid URI.
   */
  function ToRequest(h: Header): (r: Result<RequestHeader, HttpError>)
    ensures r.Ok? <==> IsValid(Uri, h.statusLine.1)
    ensures r.Ok? ==> r.value.header == h && r.value.uri == h.statusLine.1
    ensures r.Err? ==> r.error == InvalidEncoding
  {
    var uri :- D.TryFrom(Uri, h.statusLine.1);
    Ok(RequestHeader(h, uri.bytes))
  }

  /**
   * `ResponseHeader::try_from(header)`: the header kept whole, its middle part
   * as a status code. Not all digits is `InvalidEncoding`; empty or at least
   * 65536 is `ProtocolViolation`.
   */
  function ToResponse(h: Header): (r: Result<ResponseHeader, HttpError>)
    ensures !IntegerValid(h.statusLine.1) ==> r == Err(InvalidEncoding)
    ensures IntegerValid(h.statusLine.1) ==>
      (r.Ok? <==> 0 < |h.statusLine.1| && Numbers.DigitsValue(h.statusLine.1, 10) < U16_LIMIT)
    ensures IntegerValid(h.statusLine.1) && r.Err? ==> r.error == ProtocolViolation
    ensures r.Ok? ==> r.value.header == h && r.value.status == Numbers.DigitsValue(h.statusLine.1, 10)
  {
    var statusData :- D.TryFrom(Integer, h.statusLine.1);
    match D.ToU16(statusData)
    case None => Err(ProtocolViolation)
    case Some(status) => Ok(ResponseHeader(h, status))
  }

  /** A status code written in decimal converts back to itself. */
  lemma ResponseStatusRoundTrip(h: Header, code: nat)
    requires code < U16_LIMIT && h.statusLine.1 == Numbers.Decimal(code)
    ensures ToResponse(h) == Ok(ResponseHeader(h, code))
  {
    D.DecimalRoundTrip(code, U16_LIMIT);
  }
}
