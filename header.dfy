/**
 * `src/header.rs`: the byte-string HTTP/1.x header. A header is a start line
 * of three fields and the header fields, kept in ascending key order (a
 * `BTreeMap`) under ASCII-lowercased keys. It is read from a buffered source
 * with `read_word`/`read_all` and written piece by piece to a sink.
 *
 * The bytes a read accepts are described by pure functions over the input
 * (`StartLineOf`, `FieldsOf`, `HeaderOf`); the bytes a write emits by
 * `StartText`, `FieldsText` and `HeaderBytes`. The methods are proved
 * against them, and the lemmas relate the two sides.
 */
module HttpHeader {
  import opened Wrappers
  import opened Bytes
  import opened Ascii
  import opened IoError
  import opened Io
  import opened IoTraits
  import SortedMap
  import BT = ByteTraits

  const COLON: byte := 0x3A
  const SPACE: seq<byte> := [SP]
  /** What separates a key from its value in a written field line. */
  const SEPARATOR: seq<byte> := [COLON, SP]
  /** "HTTP/1.1" */
  const HTTP_1_1: seq<byte> := [0x48, 0x54, 0x54, 0x50, 0x2F, 0x31, 0x2E, 0x31]

  // ---------------------------------------------------------------- reading, as functions of the input

  /**
   * `read_word(delimiter, [Required, Trim])` over the bytes `s`, at whose end
   * the stream reports `eof`: the bytes before the first occurrence of
   * `delimiter`, and the bytes after it.
   */
  function Word(s: seq<byte>, delimiter: seq<byte>, eof: ErrorKind): (r: Result<(seq<byte>, seq<byte>), ErrorKind>)
    ensures r.Ok? ==> s == r.value.0 + delimiter + r.value.1
    ensures r.Ok? ==> forall k | 0 <= k < |r.value.0| + |delimiter| :: !EndsAt(s, k, delimiter)
    ensures r.Err? <==> forall k | 0 <= k <= |s| :: !EndsAt(s, k, delimiter)
    ensures r.Err? ==> r.error == eof
  {
    match FirstEnd(s, delimiter, 0)
    case None => Err(eof)
    case Some(m) =>
      assert s[..m][m - |delimiter|..] == delimiter;
      assert s == s[..m - |delimiter|] + s[..m][m - |delimiter|..] + s[m..];
      Ok((s[..m - |delimiter|], s[m..]))
  }

  /** `read_word(delimiter, [Required, Trim])` on a source, as `Word` describes it. */
  method ReadTrimmed(src: Source, delimiter: seq<byte>) returns (r: Result<seq<byte>, ErrorKind>)
    modifies src
    ensures var w := Word(old(src.input), delimiter, src.EofError());
      && (r.Ok? <==> w.Ok?)
      && (w.Ok? ==> r.value == w.value.0 && src.input == w.value.1)
      && (w.Err? ==> r.error == w.error)
  {
    r := ReadWord(src, delimiter, [Required, Trim]);
  }

  /**
   * `HeaderStartLine::read` over `s`: the first line, up to "\r\n", holds
   * field0 and field1, each ended by a space, and field2, the non-empty rest
   * of the line, spaces included. The bytes after the line are left.
   */
  function StartLineOf(s: seq<byte>, eof: ErrorKind): (r: Result<(StartLine, seq<byte>), ErrorKind>)
    ensures r.Ok? ==> s == r.value.0.Text() + CRLF + r.value.1 && r.value.0.field2 != []
  {
    var line :- Word(s, CRLF, eof);
    var fields :- LineFieldsOf(line.0);
    Ok((fields, line.1))
  }

  /** The three fields of one start line: two words ended by a space, then the non-empty rest. */
  function LineFieldsOf(line: seq<byte>): (r: Result<StartLine, ErrorKind>)
    ensures r.Ok? ==> line == r.value.Text() && r.value.field2 != []
    ensures r.Err? ==> r.error == UnexpectedEof
  {
    var first :- Word(line, SPACE, UnexpectedEof);
    var second :- Word(first.1, SPACE, UnexpectedEof);
    if second.1 == [] then Err(UnexpectedEof)
    else
      assert first.1 == second.0 + SPACE + second.1;
      Ok(StartLine(first.0, second.0, second.1))
  }

  /** `value.iter().take_while(|b| **b == b' ').count()` */
  function LeadingSpaces(s: seq<byte>): (n: nat)
    ensures n <= |s|
    ensures forall i | 0 <= i < n :: s[i] == SP
    ensures n < |s| ==> s[n] != SP
  {
    if s != [] && s[0] == SP then 1 + LeadingSpaces(s[1..]) else 0
  }

  /** A value with its leading spaces, and only those, removed. */
  function Unindented(s: seq<byte>): seq<byte> {
    s[LeadingSpaces(s)..]
  }

  /**
   * One field line of `HeaderFields::read`: the key before the first ':',
   * and the non-empty rest without its leading spaces as the value.
   */
  function FieldOf(line: seq<byte>): Result<(seq<byte>, seq<byte>), ErrorKind> {
    var pair :- Word(line, [COLON], UnexpectedEof);
    if pair.1 == [] then Err(UnexpectedEof) else Ok((pair.0, Unindented(pair.1)))
  }

  /**
   * `HeaderFields::read` over `s`, continuing from `fields`: one field line
   * after another, each `set`, up to the first empty line. The bytes after
   * the empty line are left.
   */
  function FieldsOf(s: seq<byte>, fields: SortedMap.Entries, eof: ErrorKind): (r: Result<(SortedMap.Entries, seq<byte>), ErrorKind>)
    decreases |s|
  {
    var line :- Word(s, CRLF, eof);
    if line.0 == [] then Ok((fields, line.1))
    else
      var entry :- FieldOf(line.0);
      FieldsOf(line.1, Stored(fields, BT.ByteVec(entry.0), BT.ByteVec(entry.1)), eof)
  }

  /**
   * `Header::read` over `input`: everything up to and including the first
   * "\r\n\r\n" is the header, which holds the start line and then the
   * fields; the bytes after it are left in the source.
   */
  function HeaderOf(input: seq<byte>, eof: ErrorKind): (r: Result<(StartLine, SortedMap.Entries, seq<byte>), ErrorKind>)
  {
    match FirstEnd(input, CRLF_CRLF, 0)
    case None => Err(eof)
    case Some(m) =>
      var start :- StartLineOf(input[..m], UnexpectedEof);
      var fields :- FieldsOf(start.1, [], UnexpectedEof);
      Ok((start.0, fields.0, input[m..]))
  }

  // ---------------------------------------------------------------- writing, as functions of the header

  /** A field line as written: "key: value". */
  function FieldLine(entry: (seq<byte>, seq<byte>)): seq<byte> {
    entry.0 + SEPARATOR + entry.1
  }

  /** The field lines, each ended by "\r\n", in the order of the entries. */
  function FieldsText(e: SortedMap.Entries): seq<byte> {
    if e == [] then [] else FieldLine(e[0]) + CRLF + FieldsText(e[1..])
  }

  /** A written header: the start line, the field lines and an empty line. */
  function HeaderBytes(startLine: StartLine, e: SortedMap.Entries): seq<byte> {
    startLine.Text() + CRLF + FieldsText(e) + CRLF
  }

  // ---------------------------------------------------------------- field maps

  /** Keys ascending and without uppercase letters: what every `HeaderFields` holds. */
  predicate Normal(e: SortedMap.Entries) {
    SortedMap.Sorted(e) && forall i | 0 <= i < |e| :: !HasUpper(e[i].0)
  }

  /** `set(name, value)` on the entries: the value under the lowercased name. */
  function Stored(e: SortedMap.Entries, name: BT.Value, value: BT.Value): SortedMap.Entries
    requires name.Valid() && value.Valid()
  {
    SortedMap.Insert(e, BT.IntoAsciiLowercase(name).Bytes(), BT.IntoBytes(value).Bytes())
  }

  /** `get(name)` on the entries: the value under the lowercased name. */
  function Lookup(e: SortedMap.Entries, name: seq<byte>): Option<seq<byte>> {
    SortedMap.Get(e, BT.AsAsciiLowercase(name).Bytes())
  }

  predicate ValidPairs(pairs: seq<(BT.Value, BT.Value)>) {
    forall i | 0 <= i < |pairs| :: pairs[i].0.Valid() && pairs[i].1.Valid()
  }

  /** `from_iter(pairs)`: the pairs collected into a `BTreeMap` under lowercased keys. */
  function Collected(pairs: seq<(BT.Value, BT.Value)>): SortedMap.Entries
    requires ValidPairs(pairs)
    decreases |pairs|
  {
    if pairs == [] then []
    else
      var last := pairs[|pairs| - 1];
      Stored(Collected(pairs[..|pairs| - 1]), last.0, last.1)
  }

  /** The value of the last pair whose lowercased key is `key`. */
  function LastValue(pairs: seq<(BT.Value, BT.Value)>, key: seq<byte>): Option<seq<byte>>
    requires ValidPairs(pairs)
    decreases |pairs|
  {
    if pairs == [] then None
    else
      var last := pairs[|pairs| - 1];
      if BT.IntoAsciiLowercase(last.0).Bytes() == key then Some(BT.IntoBytes(last.1).Bytes())
      else LastValue(pairs[..|pairs| - 1], key)
  }

  predicate AllDigits(s: seq<byte>) {
    forall i | 0 <= i < |s| :: IsDigit(s[i])
  }

  // ---------------------------------------------------------------- the header types

  /**
   * `HeaderStartLine`: field0 is the request method or the response version,
   * field1 the request target or the status code, field2 the request version
   * or the reason phrase (the `request_*`/`response_*` accessors).
   */
  datatype StartLine = StartLine(field0: seq<byte>, field1: seq<byte>, field2: seq<byte>)
  {
    /** The line as written, without its "\r\n". */
    function Text(): seq<byte> {
      field0 + SPACE + field1 + SPACE + field2
    }

    /** `new_request(method, target)`: an HTTP/1.1 request line. */
    static function NewRequest(requestMethod: BT.Value, target: BT.Value): (r: StartLine)
      requires requestMethod.Valid() && target.Valid()
      ensures r.field2 == HTTP_1_1
      ensures r.field0 == BT.IntoBytes(requestMethod).Bytes() && r.field1 == BT.IntoBytes(target).Bytes()
    {
      StartLine(BT.IntoBytes(requestMethod).Bytes(), BT.IntoBytes(target).Bytes(), HTTP_1_1)
    }

    /** `new_response(status, reason)`: an HTTP/1.1 status line; a status that is not all digits panics. */
    static function NewResponse(status: BT.Value, reason: BT.Value): (r: StartLine)
      requires status.Valid() && reason.Valid()
      requires AllDigits(BT.IntoBytes(status).Bytes())
      ensures r.field0 == HTTP_1_1 && AllDigits(r.field1)
      ensures r.field1 == BT.IntoBytes(status).Bytes() && r.field2 == BT.IntoBytes(reason).Bytes()
    {
      StartLine(HTTP_1_1, BT.IntoBytes(status).Bytes(), BT.IntoBytes(reason).Bytes())
    }

    /** `HeaderStartLine::read`: the first line of `src`, split into its three fields. */
    static method Read(src: Source) returns (r: Result<StartLine, ErrorKind>)
      modifies src
      ensures var p := StartLineOf(old(src.input), src.EofError());
        && (r.Ok? <==> p.Ok?)
        && (p.Ok? ==> r.value == p.value.0 && src.input == p.value.1)
        && (p.Err? ==> r.error == p.error)
    {
      var line :- ReadTrimmed(src, CRLF);
      r := ReadFields(line);
    }

    /** The field reads of `HeaderStartLine::read`, over a source holding just the line. */
    static method ReadFields(line: seq<byte>) returns (r: Result<StartLine, ErrorKind>)
      ensures r == LineFieldsOf(line)
    {
      var fieldsSrc := new Source(line, None);
      var field0 :- ReadTrimmed(fieldsSrc, SPACE);
      var field1 :- ReadTrimmed(fieldsSrc, SPACE);
      var field2 :- ReadAll(fieldsSrc, [Required]);
      r := Ok(StartLine(field0, field1, field2));
    }

    /** `write_all`: the line and "\r\n"; a broken sink fails on the first write, so nothing is emitted. */
    method WriteAll(sink: Sink) returns (r: Result<(), ErrorKind>)
      modifies sink
      ensures sink.failure.None? ==> r.Ok? && sink.output == old(sink.output) + Text() + CRLF
      ensures sink.failure.Some? ==> r == Err(sink.failure.value) && sink.output == old(sink.output)
    {
      r := sink.WriteAll(field0);
      if r.Err? {
        return;
      }
      var w := sink.WriteAll(SPACE);
      w := sink.WriteAll(field1);
      w := sink.WriteAll(SPACE);
      w := sink.WriteAll(field2);
      w := sink.WriteAll(CRLF);
    }
  }

  /** `HeaderFields`: a `BTreeMap` from lowercased keys to values, updated in place by `set`. */
  class HeaderFields {
    /** The map's entries in ascending key order. */
    var entries: SortedMap.Entries

    ghost predicate Valid()
      reads this
    {
      Normal(entries)
    }

    /** `HeaderFields::new`: no fields. */
    constructor ()
      ensures entries == [] && Valid()
    {
      entries := [];
    }

    /** `from_iter(pairs)`: the pairs under lowercased keys, a later pair replacing an earlier one. */
    constructor FromIter(pairs: seq<(BT.Value, BT.Value)>)
      requires ValidPairs(pairs)
      ensures entries == Collected(pairs) && Valid()
    {
      CollectedLookup(pairs, []);
      entries := Collected(pairs);
    }

    /** `get(name)`: the value stored under the lowercased name. */
    function Get(name: seq<byte>): Option<seq<byte>>
      reads this
    {
      Lookup(entries, name)
    }

    /** `set(name, value)`: the value under the lowercased name, replacing any value there. */
    method Set(name: BT.Value, value: BT.Value)
      requires name.Valid() && value.Valid()
      requires Valid()
      modifies this
      ensures entries == Stored(old(entries), name, value) && Valid()
    {
      StoredNormal(entries, name, value);
      entries := SortedMap.Insert(entries, BT.IntoAsciiLowercase(name).Bytes(), BT.IntoBytes(value).Bytes());
    }

    /** `HeaderFields::read`: field lines from `src` up to the first empty line. */
    static method Read(src: Source) returns (r: Result<HeaderFields, ErrorKind>)
      modifies src
      ensures var p := FieldsOf(old(src.input), [], src.EofError());
        && (r.Ok? <==> p.Ok?)
        && (p.Ok? ==> fresh(r.value) && r.value.entries == p.value.0 && r.value.Valid() && src.input == p.value.1)
        && (p.Err? ==> r.error == p.error)
    {
      ghost var eof := src.EofError();
      var fields := new HeaderFields();
      while true
        invariant fresh(fields) && fields.Valid()
        invariant FieldsOf(src.input, fields.entries, eof) == FieldsOf(old(src.input), [], eof)
        decreases |src.input|
      {
        var line :- ReadTrimmed(src, CRLF);
        if line == [] {
          return Ok(fields);
        }
        var entry :- ReadField(line);
        fields.Set(BT.ByteVec(entry.0), BT.ByteVec(entry.1));
      }
    }

    /** The body of `HeaderFields::read` for one non-empty line: its key and its value. */
    static method ReadField(line: seq<byte>) returns (r: Result<(seq<byte>, seq<byte>), ErrorKind>)
      ensures r == FieldOf(line)
    {
      var lineSrc := new Source(line, None);
      var key :- ReadWord(lineSrc, [COLON], [Required, Trim]);
      var value :- ReadAll(lineSrc, [Required]);
      var n := 0;
      while n < |value| && value[n] == SP
        invariant n <= |value|
        invariant forall i | 0 <= i < n :: value[i] == SP
      {
        n := n + 1;
      }
      assert n == LeadingSpaces(value);
      value := value[n..];
      r := Ok((key, value));
    }

    /**
     * `write_all`: "key: value\r\n" per field in ascending key order, then
     * "\r\n"; a broken sink fails on the first write, so nothing is emitted.
     */
    method WriteAll(sink: Sink) returns (r: Result<(), ErrorKind>)
      modifies sink
      ensures sink.failure.None? ==> r.Ok? && sink.output == old(sink.output) + FieldsText(entries) + CRLF
      ensures sink.failure.Some? ==> r == Err(sink.failure.value) && sink.output == old(sink.output)
    {
      for i := 0 to |entries|
        invariant sink.output == old(sink.output) + FieldsText(entries[..i])
        invariant i > 0 ==> sink.failure.None?
      {
        var w := WriteField(entries[i], sink);
        if w.Err? {
          return w;
        }
        FieldsTextSnoc(entries, i);
      }
      assert entries[..|entries|] == entries;
      r := sink.WriteAll(CRLF);
    }
  }

  /** The writes of one field in `HeaderFields::write_all`: "key: value\r\n". */
  method WriteField(entry: (seq<byte>, seq<byte>), sink: Sink) returns (r: Result<(), ErrorKind>)
    modifies sink
    ensures sink.failure.None? ==> r.Ok? && sink.output == old(sink.output) + FieldLine(entry) + CRLF
    ensures sink.failure.Some? ==> r == Err(sink.failure.value) && sink.output == old(sink.output)
  {
    r := sink.WriteAll(entry.0);
    if r.Err? {
      return;
    }
    var w := sink.WriteAll(SEPARATOR);
    w := sink.WriteAll(entry.1);
    w := sink.WriteAll(CRLF);
  }

  /** `Header`: a start line and its fields. */
  datatype Header = Header(startLine: StartLine, fields: HeaderFields)
  {
    /**
     * `Header::read`: the bytes of `src` up to the first "\r\n\r\n", read as
     * a start line and fields; the source keeps the bytes after it.
     */
    static method Read(src: Source) returns (r: Result<Header, ErrorKind>)
      modifies src
      ensures var p := HeaderOf(old(src.input), src.EofError());
        && (r.Ok? <==> p.Ok?)
        && (p.Ok? ==> && r.value.startLine == p.value.0 && fresh(r.value.fields)
                      && r.value.fields.entries == p.value.1 && r.value.fields.Valid()
                      && src.input == p.value.2)
        && (p.Err? ==> r.error == p.error)
    {
      var header :- ReadWord(src, CRLF_CRLF, [Required]);
      var headerSrc := new Source(header, None);
      var startLine :- StartLine.Read(headerSrc);
      var fields :- HeaderFields.Read(headerSrc);
      r := Ok(Header(startLine, fields));
    }

    /** `write_all`: the start line, then the fields, then a flush. */
    method WriteAll(sink: Sink) returns (r: Result<(), ErrorKind>)
      modifies sink
      ensures sink.failure.None? ==> r.Ok? && sink.output == old(sink.output) + HeaderBytes(startLine, fields.entries)
      ensures sink.failure.Some? ==> r == Err(sink.failure.value) && sink.output == old(sink.output)
    {
      r := startLine.WriteAll(sink);
      if r.Err? {
        return;
      }
      var w := fields.WriteAll(sink);
      w := sink.Flush();
    }

    /** `is_complete(buf)`: some 4-byte window of `buf` is "\r\n\r\n". */
    static predicate IsComplete(buf: seq<byte>) {
      exists i | 0 <= i < |buf| :: MatchesAt(buf, i, CRLF_CRLF)
    }
  }

  // ---------------------------------------------------------------- lemmas: the field map

  /** `set` keeps the keys ascending and lowercase. */
  lemma StoredNormal(e: SortedMap.Entries, name: BT.Value, value: BT.Value)
    requires name.Valid() && value.Valid() && Normal(e)
    ensures Normal(Stored(e, name, value))
  {
    var key := BT.IntoAsciiLowercase(name).Bytes();
    var r := Stored(e, name, value);
    SortedMap.InsertSpec(e, key, BT.IntoBytes(value).Bytes());
    LowercaseNormal(BT.IntoBytes(name).Bytes());
    forall n | 0 <= n < |r|
      ensures !HasUpper(r[n].0)
    {
      SortedMap.InsertedKeys(e, key, BT.IntoBytes(value).Bytes(), n);
    }
  }

  /**
   * After `set(name, value)`, `get(other)` finds the value exactly when both
   * names lowercase alike, whatever was there before; other names are
   * unaffected.
   */
  lemma LookupAfterSet(e: SortedMap.Entries, name: BT.Value, value: BT.Value, other: seq<byte>)
    requires name.Valid() && value.Valid() && SortedMap.Sorted(e)
    ensures Lookup(Stored(e, name, value), other) ==
      if Lowercase(other) == Lowercase(BT.IntoBytes(name).Bytes()) then Some(BT.IntoBytes(value).Bytes())
      else Lookup(e, other)
  {
    SortedMap.InsertSpec(e, BT.IntoAsciiLowercase(name).Bytes(), BT.IntoBytes(value).Bytes());
  }

  /**
   * `from_iter(pairs)` holds a normal map in which `get(name)` is the value
   * of the last pair whose key lowercases like `name`.
   */
  lemma {:induction false} CollectedLookup(pairs: seq<(BT.Value, BT.Value)>, name: seq<byte>)
    requires ValidPairs(pairs)
    ensures Normal(Collected(pairs))
    ensures Lookup(Collected(pairs), name) == LastValue(pairs, Lowercase(name))
    decreases |pairs|
  {
    if pairs != [] {
      var init := pairs[..|pairs| - 1];
      var last := pairs[|pairs| - 1];
      assert ValidPairs(init) by {
        forall i | 0 <= i < |init| ensures init[i].0.Valid() && init[i].1.Valid() {
          assert init[i] == pairs[i];
        }
      }
      CollectedLookup(init, name);
      StoredNormal(Collected(init), last.0, last.1);
      LookupAfterSet(Collected(init), last.0, last.1, name);
    }
  }

  // ---------------------------------------------------------------- lemmas: reading

  /** A start line written from fields without CR, the first two without spaces, the last non-empty. */
  predicate StartLineWritable(startLine: StartLine) {
    && Excludes(startLine.field0, SP) && Excludes(startLine.field1, SP) && startLine.field2 != []
    && Excludes(startLine.field0, CR) && Excludes(startLine.field1, CR) && Excludes(startLine.field2, CR)
  }

  /** Such a start line has no CR. */
  lemma StartTextClean(startLine: StartLine)
    requires StartLineWritable(startLine)
    ensures Excludes(startLine.Text(), CR)
  {
    var StartLine(f0, f1, f2) := startLine;
    ExcludesConcat(f0, SPACE, CR);
    ExcludesConcat(f0 + SPACE, f1, CR);
    ExcludesConcat(f0 + SPACE + f1, SPACE, CR);
    ExcludesConcat(f0 + SPACE + f1 + SPACE, f2, CR);
  }

  /** A written start line reads back as the same three fields, leaving what follows it. */
  lemma StartLineRoundTrip(startLine: StartLine, rest: seq<byte>, eof: ErrorKind)
    requires StartLineWritable(startLine)
    ensures StartLineOf(startLine.Text() + CRLF + rest, eof) == Ok((startLine, rest))
  {
    var StartLine(f0, f1, f2) := startLine;
    var text := startLine.Text();
    StartTextClean(startLine);
    FirstEndAfter(text, CRLF, rest);
    var s := text + CRLF + rest;
    assert s[..|text|] == text && s[|text| + 2..] == rest;
    assert Word(s, CRLF, eof) == Ok((text, rest));
    var tail := f1 + SPACE + f2;
    assert text == f0 + SPACE + tail;
    FirstEndAfter(f0, SPACE, tail);
    assert Word(text, SPACE, UnexpectedEof) == Ok((f0, tail));
    FirstEndAfter(f1, SPACE, f2);
    assert Word(tail, SPACE, UnexpectedEof) == Ok((f1, f2));
  }

  /** Reading fields stops at an empty line and leaves what follows it. */
  lemma FieldsStopAtEmptyLine(rest: seq<byte>, fields: SortedMap.Entries, eof: ErrorKind)
    ensures FieldsOf(CRLF + rest, fields, eof) == Ok((fields, rest))
  {
    FirstEndAfter([], CRLF, rest);
    assert [] + CRLF + rest == CRLF + rest;
  }

  /** A non-empty line without CR is one field line: its field is set and reading goes on after it. */
  lemma FieldsStep(line: seq<byte>, rest: seq<byte>, fields: SortedMap.Entries, eof: ErrorKind)
    requires line != [] && Excludes(line, CR)
    ensures FieldOf(line).Err? ==> FieldsOf(line + CRLF + rest, fields, eof) == Err(FieldOf(line).error)
    ensures FieldOf(line).Ok? ==>
      FieldsOf(line + CRLF + rest, fields, eof) == FieldsOf(rest, Stored(fields, BT.ByteVec(FieldOf(line).value.0), BT.ByteVec(FieldOf(line).value.1)), eof)
  {
    FirstEndAfter(line, CRLF, rest);
    var s := line + CRLF + rest;
    assert s[..|line|] == line && s[|line| + 2..] == rest;
    assert Word(s, CRLF, eof) == Ok((line, rest));
  }

  /** A field line without ':' fails the read. */
  lemma FieldWithoutColon(line: seq<byte>, rest: seq<byte>, fields: SortedMap.Entries, eof: ErrorKind)
    requires line != [] && Excludes(line, CR) && Excludes(line, COLON)
    ensures FieldsOf(line + CRLF + rest, fields, eof) == Err(UnexpectedEof)
  {
    FieldsStep(line, rest, fields, eof);
    forall k | 0 <= k <= |line|
      ensures !EndsAt(line, k, [COLON])
    {
      EndsAtByte(line, k, COLON);
    }
  }

  /** A field line with nothing after its ':' fails the read. */
  lemma FieldWithoutValue(key: seq<byte>, rest: seq<byte>, fields: SortedMap.Entries, eof: ErrorKind)
    requires Excludes(key, CR) && Excludes(key, COLON)
    ensures FieldsOf(key + [COLON] + CRLF + rest, fields, eof) == Err(UnexpectedEof)
  {
    var line := key + [COLON];
    ExcludesConcat(key, [COLON], CR);
    FieldsStep(line, rest, fields, eof);
    FirstEndAfter(key, [COLON], []);
    assert line == key + [COLON] + [];
  }

  /**
   * A field line is its key, the first ':', and a non-empty value that
   * loses its leading spaces and only those.
   */
  lemma FieldRead(key: seq<byte>, value: seq<byte>)
    requires Excludes(key, COLON) && value != []
    ensures var v := Unindented(value);
      && value == seq(LeadingSpaces(value), i => SP) + v
      && (v == [] || v[0] != SP)
      && FieldOf(key + [COLON] + value) == Ok((key, v))
  {
    FirstEndAfter(key, [COLON], value);
    var n := LeadingSpaces(value);
    assert value == value[..n] + value[n..];
    assert value[..n] == seq(n, i => SP);
  }

  /** The fields of a map written from clean keys and values: what reads back as the same map. */
  predicate FieldsWritable(e: SortedMap.Entries) {
    forall i | 0 <= i < |e| ::
      && Excludes(e[i].0, COLON) && Excludes(e[i].0, CR)
      && Excludes(e[i].1, CR) && (e[i].1 == [] || e[i].1[0] != SP)
  }

  /** The start of each written field line. */
  lemma FieldLineSplit(entry: (seq<byte>, seq<byte>))
    ensures FieldLine(entry) == entry.0 + [COLON] + ([SP] + entry.1)
  {
  }

  /** A clean field line has no CR. */
  lemma FieldLineClean(entry: (seq<byte>, seq<byte>))
    requires Excludes(entry.0, CR) && Excludes(entry.1, CR)
    ensures Excludes(FieldLine(entry), CR)
  {
    ExcludesConcat(entry.0, SEPARATOR, CR);
    ExcludesConcat(entry.0 + SEPARATOR, entry.1, CR);
  }

  /** Setting a lowercase key above all keys present appends its entry. */
  lemma StoredAbove(fields: SortedMap.Entries, key: seq<byte>, value: seq<byte>)
    requires !HasUpper(key)
    requires forall i | 0 <= i < |fields| :: SortedMap.Below(fields[i].0, key)
    ensures Stored(fields, BT.ByteVec(key), BT.ByteVec(value)) == fields + [(key, value)]
  {
    LowercaseIdentity(key);
    SortedMap.InsertAbove(fields, key, value);
  }

  /** The first written field line reads back as its own key and value. */
  lemma FirstFieldRead(e: SortedMap.Entries, fields: SortedMap.Entries, rest: seq<byte>, eof: ErrorKind)
    requires e != [] && FieldsWritable(e)
    ensures FieldsOf(FieldsText(e) + CRLF + rest, fields, eof) ==
      FieldsOf(FieldsText(e[1..]) + CRLF + rest, Stored(fields, BT.ByteVec(e[0].0), BT.ByteVec(e[0].1)), eof)
  {
    var (key, value) := e[0];
    var tail := FieldsText(e[1..]) + CRLF + rest;
    FieldLineSplit(e[0]);
    assert FieldsText(e) + CRLF + rest == FieldLine(e[0]) + CRLF + tail;
    FieldLineClean(e[0]);
    FieldsStep(FieldLine(e[0]), tail, fields, eof);
    FieldRead(key, [SP] + value);
    assert LeadingSpaces([SP] + value) == 1;
    assert Unindented([SP] + value) == value;
  }

  /**
   * Written fields read back, in order, into the map they were written
   * from: each key is already lowercase and above the keys before it, so
   * `set` appends it.
   */
  lemma {:induction false} FieldsRoundTrip(e: SortedMap.Entries, fields: SortedMap.Entries, rest: seq<byte>, eof: ErrorKind)
    requires Normal(fields + e) && FieldsWritable(e)
    ensures FieldsOf(FieldsText(e) + CRLF + rest, fields, eof) == Ok((fields + e, rest))
    decreases |e|
  {
    if e == [] {
      assert FieldsText(e) + CRLF + rest == CRLF + rest;
      FieldsStopAtEmptyLine(rest, fields, eof);
      assert fields + e == fields;
    } else {
      var all := fields + e;
      var next := fields + [e[0]];
      assert all[|fields|] == e[0];
      forall i | 0 <= i < |fields|
        ensures SortedMap.Below(fields[i].0, e[0].0)
      {
        assert all[i] == fields[i];
      }
      StoredAbove(fields, e[0].0, e[0].1);
      assert e == [e[0]] + e[1..];
      assert next + e[1..] == all;
      assert FieldsWritable(e[1..]) by {
        forall i | 0 <= i < |e[1..]| ensures e[1..][i] == e[i + 1] { }
      }
      FieldsRoundTrip(e[1..], next, rest, eof);
      FirstFieldRead(e, fields, rest, eof);
    }
  }

  /** The lines of a written header, the start line first. */
  function Lines(startLine: StartLine, e: SortedMap.Entries): seq<seq<byte>> {
    [startLine.Text()] + seq(|e|, i requires 0 <= i < |e| => FieldLine(e[i]))
  }

  /** A written header is its lines joined by "\r\n", then "\r\n\r\n". */
  lemma {:induction false} FieldsTextJoin(first: seq<byte>, e: SortedMap.Entries)
    ensures first + CRLF + FieldsText(e) + CRLF ==
      Join([first] + seq(|e|, i requires 0 <= i < |e| => FieldLine(e[i])), CRLF) + CRLF_CRLF
    decreases |e|
  {
    var lines := seq(|e|, i requires 0 <= i < |e| => FieldLine(e[i]));
    if e != [] {
      var tail := seq(|e[1..]|, i requires 0 <= i < |e[1..]| => FieldLine(e[1..][i]));
      FieldsTextJoin(FieldLine(e[0]), e[1..]);
      assert [FieldLine(e[0])] + tail == lines;
      assert FieldsText(e) + CRLF == Join(lines, CRLF) + CRLF_CRLF;
      assert ([first] + lines)[1..] == lines;
      assert Join([first] + lines, CRLF) == first + CRLF + Join(lines, CRLF);
      assert first + CRLF + FieldsText(e) + CRLF == first + CRLF + (FieldsText(e) + CRLF);
    }
  }

  /** A written header ends at its first "\r\n\r\n". */
  lemma HeaderEnd(startLine: StartLine, e: SortedMap.Entries, body: seq<byte>)
    requires StartLineWritable(startLine) && FieldsWritable(e)
    ensures FirstEnd(HeaderBytes(startLine, e) + body, CRLF_CRLF, 0) == Some(|HeaderBytes(startLine, e)|)
  {
    var lines := Lines(startLine, e);
    FieldsTextJoin(startLine.Text(), e);
    forall i | 0 <= i < |lines|
      ensures |lines[i]| > 0 && Excludes(lines[i], CR)
    {
      if i == 0 {
        StartTextClean(startLine);
      } else {
        assert lines[i] == FieldLine(e[i - 1]);
        FieldLineClean(e[i - 1]);
      }
    }
    FindHeaderEnd(lines, body);
    FirstEndOfFind(Join(lines, CRLF) + CRLF_CRLF + body, CRLF_CRLF);
  }

  /**
   * A written header reads back as the start line and the map it was
   * written from, and leaves the bytes after it in the source.
   */
  lemma HeaderRoundTrip(startLine: StartLine, e: SortedMap.Entries, body: seq<byte>, eof: ErrorKind)
    requires StartLineWritable(startLine) && Normal(e) && FieldsWritable(e)
    ensures HeaderOf(HeaderBytes(startLine, e) + body, eof) == Ok((startLine, e, body))
  {
    var bytes := HeaderBytes(startLine, e);
    var input := bytes + body;
    var rest := FieldsText(e) + CRLF;
    HeaderEnd(startLine, e, body);
    assert input[..|bytes|] == bytes && input[|bytes|..] == body;
    assert bytes == startLine.Text() + CRLF + rest;
    StartLineRoundTrip(startLine, rest, UnexpectedEof);
    assert StartLineOf(input[..|bytes|], UnexpectedEof) == Ok((startLine, rest));
    assert [] + e == e && rest + [] == rest;
    FieldsRoundTrip(e, [], [], UnexpectedEof);
    assert FieldsOf(rest, [], UnexpectedEof) == Ok((e, []));
  }

  /** Writing a field map one field at a time. */
  lemma {:induction false} FieldsTextConcat(a: SortedMap.Entries, b: SortedMap.Entries)
    ensures FieldsText(a + b) == FieldsText(a) + FieldsText(b)
    decreases |a|
  {
    if a != [] {
      assert (a + b)[1..] == a[1..] + b;
      FieldsTextConcat(a[1..], b);
    } else {
      assert a + b == b;
    }
  }

  /** The field lines of the first `i + 1` entries: those of the first `i`, then entry `i`'s. */
  lemma FieldsTextSnoc(e: SortedMap.Entries, i: nat)
    requires i < |e|
    ensures FieldsText(e[..i + 1]) == FieldsText(e[..i]) + FieldLine(e[i]) + CRLF
  {
    FieldsTextConcat(e[..i], [e[i]]);
    assert e[..i + 1] == e[..i] + [e[i]];
    assert FieldsText([e[i]]) == FieldLine(e[i]) + CRLF + FieldsText([]);
  }

  /** `is_complete(buf)` holds exactly when `read` finds the end of a header in `buf`. */
  lemma CompleteIffHeaderEnd(buf: seq<byte>, eof: ErrorKind)
    ensures Header.IsComplete(buf) <==> FirstEnd(buf, CRLF_CRLF, 0).Some?
    ensures !Header.IsComplete(buf) ==> HeaderOf(buf, eof) == Err(eof)
  {
    FindSpec(buf, CRLF_CRLF);
    if Header.IsComplete(buf) {
      FirstEndOfFind(buf, CRLF_CRLF);
    }
    var m := FirstEnd(buf, CRLF_CRLF, 0);
    if m.Some? {
      EndsAtMatches(buf, m.value, CRLF_CRLF);
      assert MatchesAt(buf, m.value - 4, CRLF_CRLF);
    }
  }
}
