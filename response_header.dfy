/**
 * `ResponseHeader` of `src/response_header.rs`: an HTTP response's version,
 * status code and reason phrase, and header fields, read from the bytes a
 * `HeaderReader` received and serialized into a `HeaderWriter`.
 */
module ResponseHeaders {
  import opened Wrappers
  import opened Bytes
  import opened Ascii
  import opened IoError
  import opened Utf8
  import opened Numbers
  import opened Parsers
  import opened HeaderStreams
  import RequestHeaders

  /** A `u16` status code. */
  type StatusCode = n: nat | n < U16_LIMIT

  datatype ResponseHeader = ResponseHeader(
    httpVersion: seq<byte>,
    statusCode: StatusCode,
    reason: seq<byte>,
    headerFields: Fields)

  /**
   * What `from_reader` returns for the received bytes: the parse result, the
   * start line read as version, status code and reason in that order;
   * InvalidData for a version other than HTTP/1.0 and HTTP/1.1, or for a
   * status code that is not a decimal `u16` (`str::parse::<u16>`).
   */
  function ResponseOf(data: seq<byte>): Result<ResponseHeader, ErrorKind> {
    var parsed :- Parsed(data);
    var (httpVersion, code, reason) := parsed.0;
    if !RequestHeaders.IsSupportedVersion(httpVersion) then Err(InvalidData)
    else
      var status := ParseUnsigned(code, 10, U16_LIMIT);
      if status.None? then Err(InvalidData)
      else Ok(ResponseHeader(httpVersion, status.value, reason, parsed.1))
  }

  /** `from_reader`: parses the reader's bytes, checks the version and parses the status code. */
  method FromReader(reader: HeaderReader) returns (r: Result<ResponseHeader, ErrorKind>)
    ensures r == ResponseOf(reader.data)
  {
    var data := reader.data;
    var parsed := Parse(data);
    if parsed.Err? {
      return Err(parsed.error);
    }
    var (httpVersion, code, reason) := parsed.value.0;
    if !RequestHeaders.IsSupportedVersion(httpVersion) {
      return Err(InvalidData);
    }
    var status := ParseUnsigned(code, 10, U16_LIMIT);
    if status.None? {
      return Err(InvalidData);
    }
    r := Ok(ResponseHeader(httpVersion, status.value, reason, parsed.value.1));
  }

  /** The start line `into_writer` writes: version, the status code in decimal, reason. */
  function StartOf(header: ResponseHeader): StartLine {
    (header.httpVersion, Decimal(header.statusCode), header.reason)
  }

  /**
   * `into_writer`: a writer holding "version code reason\r\n", a
   * "key: value\r\n" line per field in the map's iteration order `order`,
   * and a final "\r\n", with nothing sent yet.
   */
  method IntoWriter(header: ResponseHeader, order: seq<seq<byte>>) returns (writer: HeaderWriter)
    requires IsOrder(order, header.headerFields)
    ensures fresh(writer) && writer.Valid()
    ensures writer.data == HeaderText(StartOf(header), header.headerFields, order)
    ensures writer.position == 0
  {
    var serialized := Serialize(StartOf(header), header.headerFields, order);
    writer := new HeaderWriter(serialized);
  }

  /** `Default`: HTTP/1.1 200 OK with no fields. */
  function Default(): (header: ResponseHeader)
    ensures header.httpVersion == Str("HTTP/1.1") && header.statusCode == 200
    ensures header.reason == Str("OK") && header.headerFields == map[]
  {
    ResponseHeader(Str("HTTP/1.1"), 200, Str("OK"), map[])
  }

  /**
   * `from_reader` fails, always with InvalidData, exactly when the bytes do
   * not parse, the version is not supported or the status code is not a
   * decimal `u16`.
   */
  lemma ResponseOfErrors(data: seq<byte>)
    ensures ResponseOf(data).Err? ==> ResponseOf(data).error == InvalidData
    ensures ResponseOf(data).Ok? <==>
      && Parsed(data).Ok?
      && RequestHeaders.IsSupportedVersion(Parsed(data).value.0.0)
      && ParseUnsigned(Parsed(data).value.0.1, 10, U16_LIMIT).Some?
    ensures ResponseOf(data).Ok? ==>
      var h := ResponseOf(data).value;
      && Parsed(data).value.0.0 == h.httpVersion
      && DigitsValue(UnsignedDigits(Parsed(data).value.0.1), 10) == h.statusCode
      && Parsed(data).value.0.2 == h.reason
      && Parsed(data).value.1 == h.headerFields
  {
    ParsedErrors(data);
  }

  /** A status code in decimal is ASCII digits: UTF-8, with no space and no CR. */
  lemma DecimalIsPlain(code: nat)
    ensures IsUtf8(Decimal(code)) && Excludes(Decimal(code), SP) && Excludes(Decimal(code), CR)
  {
    RenderDigits(code, 10);
    AsciiIsUtf8(Decimal(code));
  }

  /**
   * A header the writer can represent: a supported version, and version,
   * reason and fields as `Parsers.Writable` requires (the decimal code always
   * is, by `DecimalIsPlain`).
   */
  predicate IsWritable(header: ResponseHeader, order: seq<seq<byte>>) {
    Writable(StartOf(header), header.headerFields, order) && RequestHeaders.IsSupportedVersion(header.httpVersion)
  }

  /** What `into_writer` writes for a writable header, `from_reader` reads back, status code included. */
  lemma ResponseRoundTrip(header: ResponseHeader, order: seq<seq<byte>>)
    requires IsWritable(header, order)
    ensures ResponseOf(HeaderText(StartOf(header), header.headerFields, order)) == Ok(header)
  {
    ParseHeaderText(StartOf(header), header.headerFields, order);
    RenderParse(header.statusCode, 10, U16_LIMIT);
  }

  /** The default header is writable, so by `ResponseRoundTrip` it survives the writer and the reader. */
  lemma DefaultWritable()
    ensures IsWritable(Default(), [])
  {
    var h := Default();
    var start := StartOf(h);
    assert AllVisible(start.0) && AllVisible(start.2);
    DecimalIsPlain(h.statusCode);
    BareWritable(start);
  }
}
