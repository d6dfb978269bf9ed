/**
 * `RequestHeader` of `src/request_header.rs`: an HTTP request's method,
 * request URI, version and header fields, read from the bytes a
 * `HeaderReader` received and serialized into a `HeaderWriter`.
 */
module RequestHeaders {
  import opened Wrappers
  import opened Bytes
  import opened IoError
  import opened Utf8
  import opened Parsers
  import opened HeaderStreams

  datatype RequestHeader = RequestHeader(
    httpVersion: seq<byte>,
    httpMethod: seq<byte>,
    requestUri: seq<byte>,
    headerFields: Fields)

  /** The versions `from_reader` accepts: "HTTP/1.0" and "HTTP/1.1". */
  predicate IsSupportedVersion(version: seq<byte>) {
    version == Str("HTTP/1.0") || version == Str("HTTP/1.1")
  }

  /**
   * What `from_reader` returns for the received bytes: the parse result, the
   * start line read as method, URI and version in that order, or InvalidData
   * for a version other than HTTP/1.0 and HTTP/1.1.
   */
  function RequestOf(data: seq<byte>): Result<RequestHeader, ErrorKind> {
    var parsed :- Parsed(data);
    var (httpMethod, requestUri, httpVersion) := parsed.0;
    if !IsSupportedVersion(httpVersion) then Err(InvalidData)
    else Ok(RequestHeader(httpVersion, httpMethod, requestUri, parsed.1))
  }

  /** `from_reader`: parses the reader's bytes and checks the version. */
  method FromReader(reader: HeaderReader) returns (r: Result<RequestHeader, ErrorKind>)
    ensures r == RequestOf(reader.data)
  {
    var data := reader.data;
    var parsed := Parse(data);
    if parsed.Err? {
      return Err(parsed.error);
    }
    var (httpMethod, requestUri, httpVersion) := parsed.value.0;
    if !IsSupportedVersion(httpVersion) {
      return Err(InvalidData);
    }
    r := Ok(RequestHeader(httpVersion, httpMethod, requestUri, parsed.value.1));
  }

  /** The start line `into_writer` writes: method, URI, version. */
  function StartOf(header: RequestHeader): StartLine {
    (header.httpMethod, header.requestUri, header.httpVersion)
  }

  /**
   * `into_writer`: a writer holding "method uri version\r\n", a
   * "key: value\r\n" line per field in the map's iteration order `order`,
   * and a final "\r\n", with nothing sent yet.
   */
  method IntoWriter(header: RequestHeader, order: seq<seq<byte>>) returns (writer: HeaderWriter)
    requires IsOrder(order, header.headerFields)
    ensures fresh(writer) && writer.Valid()
    ensures writer.data == HeaderText(StartOf(header), header.headerFields, order)
    ensures writer.position == 0
  {
    var serialized := Serialize(StartOf(header), header.headerFields, order);
    writer := new HeaderWriter(serialized);
  }

  /** `Default`: GET / HTTP/1.1 with no fields. */
  function Default(): (header: RequestHeader)
    ensures header.httpMethod == Str("GET") && header.requestUri == Str("/")
    ensures header.httpVersion == Str("HTTP/1.1") && header.headerFields == map[]
  {
    RequestHeader(Str("HTTP/1.1"), Str("GET"), Str("/"), map[])
  }

  /**
   * `from_reader` fails, always with InvalidData, exactly when the bytes do
   * not parse or the third part of the start line is not a supported version.
   */
  lemma RequestOfErrors(data: seq<byte>)
    ensures RequestOf(data).Err? ==> RequestOf(data).error == InvalidData
    ensures RequestOf(data).Ok? <==> Parsed(data).Ok? && IsSupportedVersion(Parsed(data).value.0.2)
    ensures RequestOf(data).Ok? ==>
      var h := RequestOf(data).value;
      Parsed(data).value == ((h.httpMethod, h.requestUri, h.httpVersion), h.headerFields)
  {
    ParsedErrors(data);
  }

  /** A header the writer can represent: see `Parsers.Writable`, and a supported version. */
  predicate IsWritable(header: RequestHeader, order: seq<seq<byte>>) {
    Writable(StartOf(header), header.headerFields, order) && IsSupportedVersion(header.httpVersion)
  }

  /** What `into_writer` writes for a writable header, `from_reader` reads back. */
  lemma RequestRoundTrip(header: RequestHeader, order: seq<seq<byte>>)
    requires IsWritable(header, order)
    ensures RequestOf(HeaderText(StartOf(header), header.headerFields, order)) == Ok(header)
  {
    ParseHeaderText(StartOf(header), header.headerFields, order);
  }

  /** The default header is writable, so by `RequestRoundTrip` it survives the writer and the reader. */
  lemma DefaultWritable()
    ensures IsWritable(Default(), [])
  {
    var start := StartOf(Default());
    assert AllVisible(start.0) && AllVisible(start.1) && AllVisible(start.2);
    AsciiIsUtf8(start.1);
    BareWritable(start);
  }
}
