/**
 * `src/header/builders.rs`: builders that collect the three parts of a start
 * line and the header fields, and refuse to build while a part is missing.
 * Each setter consumes the builder and hands it back updated.
 */
module Builders {
  import opened Wrappers
  import opened Bytes
  import opened Encodings
  import opened HttpError
  import FieldMap
  import C = Ascii

  /** The header the builders produce: the three start-line parts and the fields. */
  datatype Header = Header(headerLine: (seq<byte>, seq<byte>, seq<byte>), headerFields: FieldMap.Fields)

  datatype RequestHeader = RequestHeader(header: Header)
  datatype ResponseHeader = ResponseHeader(header: Header)

  /**
   * `RequestBuilder`: an optional method (`Data<Ascii>`), URI (`Data<Uri>`)
   * and version (`Data<Ascii>`), and the fields.
   */
  datatype RequestBuilder = RequestBuilder(
    httpMethod: Option<seq<byte>>,
    uri: Option<seq<byte>>,
    version: Option<seq<byte>>,
    fields: FieldMap.Fields)
  {
    /** What the `Data` types of the parts guarantee. */
    predicate Valid() {
      && (httpMethod.Some? ==> AsciiValid(httpMethod.value))
      && (uri.Some? ==> IsValid(Uri, uri.value))
      && (version.Some? ==> AsciiValid(version.value))
      && FieldMap.Valid(fields)
    }

    /** `method(m)`: sets the method and nothing else. */
    function SetMethod(m: seq<byte>): (r: RequestBuilder)
      ensures r.httpMethod == Some(m) && r.uri == uri && r.version == version && r.fields == fields
      ensures Valid() && AsciiValid(m) ==> r.Valid()
    {
      this.(httpMethod := Some(m))
    }

    /** `uri(u)`: sets the URI and nothing else. */
    function SetUri(u: seq<byte>): (r: RequestBuilder)
      ensures r.uri == Some(u) && r.httpMethod == httpMethod && r.version == version && r.fields == fields
      ensures Valid() && IsValid(Uri, u) ==> r.Valid()
    {
      this.(uri := Some(u))
    }

    /** `version(v)`: sets the version and nothing else. */
    function SetVersion(v: seq<byte>): (r: RequestBuilder)
      ensures r.version == Some(v) && r.httpMethod == httpMethod && r.uri == uri && r.fields == fields
      ensures Valid() && AsciiValid(v) ==> r.Valid()
    {
      this.(version := Some(v))
    }

    /** `field(key, value)`: inserts into the field map; the parts stay. */
    function Field(key: seq<byte>, value: seq<byte>): (r: RequestBuilder)
      ensures r.fields == FieldMap.Insert(fields, key, value)
      ensures r.httpMethod == httpMethod && r.uri == uri && r.version == version
      ensures Valid() && KeyValid(key) && AsciiValid(value) ==> r.Valid()
    {
      this.(fields := FieldMap.Insert(fields, key, value))
    }

    /**
     * `build`: `ApiMisuse` unless method, URI and version are all set;
     * otherwise a header whose start line is method, URI, version in that
     * order, with the fields collected so far.
     */
    function Build(): (r: Result<RequestHeader, HttpError>)
      ensures r.Err? <==> httpMethod.None? || uri.None? || version.None?
      ensures r.Err? ==> r.error == ApiMisuse
      ensures r.Ok? ==> r.value.header.headerLine == (httpMethod.value, uri.value, version.value)
      ensures r.Ok? ==> r.value.header.headerFields == fields
    {
      if httpMethod.None? then Err(ApiMisuse)
      else if uri.None? then Err(ApiMisuse)
      else if version.None? then Err(ApiMisuse)
      else Ok(RequestHeader(Header((httpMethod.value, uri.value, version.value), fields)))
    }
  }

  /** `RequestBuilder::new`: nothing set, no fields. */
  function NewRequest(): (r: RequestBuilder)
    ensures r.Valid() && r.Build() == Err(ApiMisuse)
  {
    RequestBuilder(None, None, None, map[])
  }

  /**
   * `ResponseBuilder`: an optional version (`Data<Ascii>`), status
   * (`Data<Integer>`) and reason (`Data<Ascii>`), and the fields.
   */
  datatype ResponseBuilder = ResponseBuilder(
    version: Option<seq<byte>>,
    status: Option<seq<byte>>,
    reason: Option<seq<byte>>,
    fields: FieldMap.Fields)
  {
    /** What the `Data` types of the parts guarantee. */
    predicate Valid() {
      && (version.Some? ==> AsciiValid(version.value))
      && (status.Some? ==> IntegerValid(status.value))
      && (reason.Some? ==> AsciiValid(reason.value))
      && FieldMap.Valid(fields)
    }

    /** `version(v)`: sets the version and nothing else. */
    function SetVersion(v: seq<byte>): (r: ResponseBuilder)
      ensures r.version == Some(v) && r.status == status && r.reason == reason && r.fields == fields
      ensures Valid() && AsciiValid(v) ==> r.Valid()
    {
      this.(version := Some(v))
    }

    /** `status(s)`: sets the status code and nothing else. */
    function SetStatus(s: seq<byte>): (r: ResponseBuilder)
      ensures r.status == Some(s) && r.version == version && r.reason == reason && r.fields == fields
      ensures Valid() && IntegerValid(s) ==> r.Valid()
    {
      this.(status := Some(s))
    }

    /** `reason(info)`: sets the reason and nothing else. */
    function SetReason(info: seq<byte>): (r: ResponseBuilder)
      ensures r.reason == Some(info) && r.version == version && r.status == status && r.fields == fields
      ensures Valid() && AsciiValid(info) ==> r.Valid()
    {
      this.(reason := Some(info))
    }

    /** `field(key, value)`: inserts into the field map; the parts stay. */
    function Field(key: seq<byte>, value: seq<byte>): (r: ResponseBuilder)
      ensures r.fields == FieldMap.Insert(fields, key, value)
      ensures r.version == version && r.status == status && r.reason == reason
      ensures Valid() && KeyValid(key) && AsciiValid(value) ==> r.Valid()
    {
      this.(fields := FieldMap.Insert(fields, key, value))
    }

    /**
     * `build`: `ApiMisuse` unless version, status and reason are all set;
     * otherwise a header whose start line is version, status, reason in that
     * order, with the fields collected so far.
     */
    function Build(): (r: Result<ResponseHeader, HttpError>)
      ensures r.Err? <==> version.None? || status.None? || reason.None?
      ensures r.Err? ==> r.error == ApiMisuse
      ensures r.Ok? ==> r.value.header.headerLine == (version.value, status.value, reason.value)
      ensures r.Ok? ==> r.value.header.headerFields == fields
    {
      if version.None? then Err(ApiMisuse)
      else if status.None? then Err(ApiMisuse)
      else if reason.None? then Err(ApiMisuse)
      else Ok(ResponseHeader(Header((version.value, status.value, reason.value), fields)))
    }
  }

  /** `ResponseBuilder::new`: nothing set, no fields. */
  function NewResponse(): (r: ResponseBuilder)
    ensures r.Valid() && r.Build() == Err(ApiMisuse)
  {
    ResponseBuilder(None, None, None, map[])
  }

  /**
   * Whatever was set before and in whichever order, setting all three parts
   * builds a request whose start line holds the last value given to each.
   */
  lemma RequestSettersWin(b: RequestBuilder, m1: seq<byte>, m2: seq<byte>, u: seq<byte>, v: seq<byte>)
    ensures b.SetMethod(m1).SetVersion(v).SetUri(u).SetMethod(m2).Build()
      == Ok(RequestHeader(Header((m2, u, v), b.fields)))
  {
  }

  /** The same for a response: the last status given is the one built. */
  lemma ResponseSettersWin(b: ResponseBuilder, s1: seq<byte>, s2: seq<byte>, v: seq<byte>, info: seq<byte>)
    ensures b.SetStatus(s1).SetReason(info).SetVersion(v).SetStatus(s2).Build()
      == Ok(ResponseHeader(Header((v, s2, info), b.fields)))
  {
  }

  /**
   * Setting a field twice with keys equal up to case leaves one field, with
   * the first key's spelling and the later value.
   */
  lemma FieldTwice(b: RequestBuilder, k1: seq<byte>, v1: seq<byte>, k2: seq<byte>, v2: seq<byte>)
    requires C.Lowercase(k1) == C.Lowercase(k2)
    ensures FieldMap.Get(b.Field(k1, v1).Field(k2, v2).fields, k1) == Some(v2)
    ensures FieldMap.Get(b.Field(k1, v1).Field(k2, v2).fields, k2) == Some(v2)
    ensures |b.Field(k1, v1).Field(k2, v2).fields| == |b.Field(k1, v1).fields|
  {
    FieldMap.GetAfterInsert(b.fields, k1, v1, k1);
    FieldMap.GetAfterInsert(b.Field(k1, v1).fields, k2, v2, k1);
    FieldMap.GetAfterInsert(b.Field(k1, v1).fields, k2, v2, k2);
    assert b.Field(k1, v1).Field(k2, v2).fields.Keys == b.Field(k1, v1).fields.Keys;
  }
}
