/**
 * What `Header::write` and `Header::parse` (src/header/header.rs) promise of
 * each other: a header whose parts cannot be mistaken for separators is
 * written as bytes that parse back into the same header, whatever body
 * follows it and whatever order the fields are written in. Also: the parser
 * never looks past the header end, and it reports `TruncatedData` exactly
 * when there is no header end.
 */
module DataHeaderRoundTrip {
  import opened Wrappers
  import opened Bytes
  import opened Encodings
  import opened HttpError
  import opened SliceExt
  import opened IterExt
  import C = Ascii
  import FieldMap
  import opened DataHeader

  // ---------------------------------------------------------------- lines

  /** The field lines as written, without their "\r\n", in the order `order`. */
  function FieldTexts(fields: FieldMap.Fields, order: seq<seq<byte>>): (r: seq<seq<byte>>)
    requires forall f | f in order :: f in fields
    ensures |r| == |order|
    ensures forall i | 0 <= i < |order| :: r[i] == FieldText(fields[order[i]].0, fields[order[i]].1)
  {
    if |order| == 0 then []
    else
      var f := order[|order| - 1];
      FieldTexts(fields, order[..|order| - 1]) + [FieldText(fields[f].0, fields[f].1)]
  }

  /** All lines of a written header: the status line, then the field lines. */
  function Lines(h: Header, order: seq<seq<byte>>): seq<seq<byte>>
    requires forall f | f in order :: f in h.fields
  {
    [StatusText(h)] + FieldTexts(h.fields, order)
  }

  /** Field lines written after a first line are that line and the field lines joined by "\r\n". */
  lemma {:induction false} FieldsBytesJoin(first: seq<byte>, fields: FieldMap.Fields, order: seq<seq<byte>>)
    requires forall f | f in order :: f in fields
    ensures first + CRLF + FieldsBytes(fields, order) == Join([first] + FieldTexts(fields, order), CRLF) + CRLF
    decreases |order|
  {
    if |order| > 0 {
      var init := order[..|order| - 1];
      var f := order[|order| - 1];
      var text := FieldText(fields[f].0, fields[f].1);
      FieldsBytesJoin(first, fields, init);
      LineAppend(first, FieldTexts(fields, init), FieldsBytes(fields, init), text);
      assert FieldTexts(fields, order) == FieldTexts(fields, init) + [text];
      assert [first] + FieldTexts(fields, order) == [first] + FieldTexts(fields, init) + [text];
    } else {
      assert [first] + FieldTexts(fields, order) == [first];
    }
  }

  /** One more line written after joined lines extends the join by it. */
  lemma LineAppend(first: seq<byte>, lines: seq<seq<byte>>, before: seq<byte>, text: seq<byte>)
    requires first + CRLF + before == Join([first] + lines, CRLF) + CRLF
    ensures first + CRLF + (before + text + CRLF) == Join([first] + lines + [text], CRLF) + CRLF
  {
    JoinAppend([first] + lines, text, CRLF);
    calc {
      first + CRLF + (before + text + CRLF);
      (first + CRLF + before) + text + CRLF;
      Join([first] + lines, CRLF) + CRLF + text + CRLF;
    }
  }

  /** A written header is its lines joined by "\r\n", then the header end "\r\n\r\n". */
  lemma SerializedLines(h: Header, order: seq<seq<byte>>)
    requires forall f | f in order :: f in h.fields
    ensures Serialized(h, order) == Join(Lines(h, order), CRLF) + CRLF_CRLF
  {
    FieldsBytesJoin(StatusText(h), h.fields, order);
  }

  // ---------------------------------------------------------------- each line back

  /** Status-line parts that `parse` reads back as they are. */
  predicate StatusWritable(statusLine: (seq<byte>, seq<byte>, seq<byte>)) {
    var (s0, s1, s2) := statusLine;
    && |s0| > 0 && !C.IsWhitespace(s0[0])
    && |s2| > 0 && !C.IsWhitespace(s2[|s2| - 1])
    && Excludes(s0, SP) && Excludes(s1, SP)
    && Excludes(s0, CR) && Excludes(s1, CR) && Excludes(s2, CR)
  }

  /** A written status line parses back into its three parts. */
  lemma StatusLineRoundTrip(h: Header)
    requires h.Valid() && StatusWritable(h.statusLine)
    ensures ParseStatusLine(StatusText(h)) == Ok(h.statusLine)
  {
    var (s0, s1, s2) := h.statusLine;
    var text := StatusText(h);
    assert text[0] == s0[0] && text[|text| - 1] == s2[|s2| - 1];
    TrimUnchanged(text);
    assert [s0, s1, s2][1..] == [s1, s2] && [s1, s2][1..] == [s2];
    assert Join([s2], SPACE) == s2;
    assert Join([s1, s2], SPACE) == s1 + SPACE + s2;
    assert Join([s0, s1, s2], SPACE) == text;
    PiecesOfJoin([s0, s1, s2], SPACE, 3);
    assert ParseStatusLine(text) == StatusParts([s0, s1, s2]);
  }

  /** A written field line parses back into its key and value when the value is trimmed. */
  lemma FieldLineRoundTrip(key: seq<byte>, value: seq<byte>)
    requires KeyValid(key) && AsciiValid(value) && Trim(value) == value
    ensures ParseFieldLine(FieldText(key, value)) == Ok((key, value))
  {
    var line := FieldText(key, value);
    var rest := [SP] + value;
    assert line == key + [COLON] + rest;
    forall i | 0 <= i < |key|
      ensures key[i] != COLON
    {
      assert IsKeyByte(key[i]);
    }
    FindAfter(key, [COLON], rest);
    assert line[..|key|] == key && line[|key| + 1..] == rest;
    assert Pieces(line, [COLON], 2) == [key, rest];
    TrimAfterWhitespace(SP, value);
  }

  /** The entries of `fields` filed under the keys in `order`. */
  function Restrict(fields: FieldMap.Fields, order: seq<seq<byte>>): FieldMap.Fields {
    map f | f in fields && f in order :: fields[f]
  }

  /** Values that `parse` reads back as they are. */
  predicate FieldsWritable(fields: FieldMap.Fields) {
    forall f | f in fields :: Excludes(fields[f].1, CR) && Trim(fields[f].1) == fields[f].1
  }

  /** Inserting the entry of one more key, new to the prefix, extends the restriction by it. */
  lemma RestrictStep(fields: FieldMap.Fields, order: seq<seq<byte>>)
    requires FieldMap.Valid(fields) && |order| > 0
    requires forall f | f in order :: f in fields
    requires forall i, j | 0 <= i < j < |order| :: order[i] != order[j]
    ensures var n, f := |order| - 1, order[|order| - 1];
      Restrict(fields, order) == FieldMap.Insert(Restrict(fields, order[..n]), fields[f].0, fields[f].1)
  {
    var n := |order| - 1;
    var init := order[..n];
    var f := order[n];
    forall i | 0 <= i < n
      ensures init[i] != f
    {
      assert init[i] == order[i];
    }
    assert f !in Restrict(fields, init);
    assert C.Lowercase(fields[f].0) == f;
    forall g | g in order
      ensures g in init || g == f
    {
      var i :| 0 <= i < |order| && order[i] == g;
      if i < n {
        assert init[i] == g;
      }
    }
  }

  /**
   * Lines that a parser reads back as the entries of `fields` under `order`,
   * a key at most once, fold into exactly those entries.
   */
  lemma {:induction false} InsertEachRestrict(fields: FieldMap.Fields, order: seq<seq<byte>>, lines: seq<seq<byte>>, parse: LineParser)
    requires FieldMap.Valid(fields)
    requires forall f | f in order :: f in fields
    requires forall i, j | 0 <= i < j < |order| :: order[i] != order[j]
    requires |lines| == |order|
    requires forall i | 0 <= i < |lines| :: parse(lines[i]) == Ok(fields[order[i]])
    ensures InsertEach(lines, parse) == Ok(Restrict(fields, order))
    decreases |order|
  {
    if |order| == 0 {
      assert Restrict(fields, order) == map[];
    } else {
      var n := |order| - 1;
      forall i | 0 <= i < n
        ensures parse(lines[..n][i]) == Ok(fields[order[..n][i]])
      {
        assert lines[..n][i] == lines[i] && order[..n][i] == order[i];
      }
      InsertEachRestrict(fields, order[..n], lines[..n], parse);
      RestrictStep(fields, order);
      assert parse(lines[n]) == Ok(fields[order[n]]);
    }
  }

  /** The written field lines, in any order without repeats, parse back into the entries written. */
  lemma FieldsRoundTrip(fields: FieldMap.Fields, order: seq<seq<byte>>)
    requires FieldMap.Valid(fields) && FieldsWritable(fields)
    requires forall f | f in order :: f in fields
    requires forall i, j | 0 <= i < j < |order| :: order[i] != order[j]
    ensures ParseFields(FieldTexts(fields, order)) == Ok(Restrict(fields, order))
  {
    var texts := FieldTexts(fields, order);
    forall i | 0 <= i < |texts|
      ensures ParseFieldLine(texts[i]) == Ok(fields[order[i]])
    {
      var (key, value) := fields[order[i]];
      FieldLineRoundTrip(key, value);
    }
    InsertEachRestrict(fields, order, texts, ParseFieldLine);
  }

  // ---------------------------------------------------------------- the header back

  /** A header that `write` emits in a form `parse` reads back unchanged. */
  predicate Writable(h: Header) {
    h.Valid() && StatusWritable(h.statusLine) && FieldsWritable(h.fields)
  }

  /** A written status line is not empty and holds no CR. */
  lemma StatusTextClean(h: Header)
    requires StatusWritable(h.statusLine)
    ensures |StatusText(h)| > 0 && Excludes(StatusText(h), CR)
  {
    var (s0, s1, s2) := h.statusLine;
    ExcludesConcat(s0, SPACE, CR);
    ExcludesConcat(s0 + SPACE, s1, CR);
    ExcludesConcat(s0 + SPACE + s1, SPACE, CR);
    ExcludesConcat(s0 + SPACE + s1 + SPACE, s2, CR);
  }

  /** A written field line is not empty and holds no CR when its value holds none. */
  lemma FieldTextClean(key: seq<byte>, value: seq<byte>)
    requires KeyValid(key) && Excludes(value, CR)
    ensures |FieldText(key, value)| > 0 && Excludes(FieldText(key, value), CR)
  {
    forall j | 0 <= j < |key|
      ensures key[j] != CR
    {
      assert IsKeyByte(key[j]);
    }
    ExcludesConcat(key, SEPARATOR, CR);
    ExcludesConcat(key + SEPARATOR, value, CR);
  }

  /** No written line is empty or holds a CR. */
  lemma LinesClean(h: Header, order: seq<seq<byte>>)
    requires Writable(h) && forall f | f in order :: f in h.fields
    ensures forall i | 0 <= i < |Lines(h, order)| :: |Lines(h, order)[i]| > 0 && Excludes(Lines(h, order)[i], CR)
  {
    var lines := Lines(h, order);
    var texts := FieldTexts(h.fields, order);
    assert lines == [StatusText(h)] + texts;
    forall i | 0 <= i < |lines|
      ensures |lines[i]| > 0 && Excludes(lines[i], CR)
    {
      if i == 0 {
        StatusTextClean(h);
      } else {
        var f := order[i - 1];
        assert lines[i] == texts[i - 1] == FieldText(h.fields[f].0, h.fields[f].1);
        assert FieldMap.Valid(h.fields) && FieldsWritable(h.fields);
        FieldTextClean(h.fields[f].0, h.fields[f].1);
      }
    }
  }

  /** Written bytes with a body after them split at the header end into the joined lines and the body. */
  lemma WrittenSplit(h: Header, order: seq<seq<byte>>, body: seq<byte>)
    requires Writable(h) && forall f | f in order :: f in h.fields
    ensures var bytes, head := Serialized(h, order) + body, Join(Lines(h, order), CRLF);
      && Find(bytes, CRLF_CRLF) == Some(|head|)
      && Pieces(bytes, CRLF_CRLF, 2) == [head, body]
      && Serialized(h, order) == head + CRLF_CRLF
  {
    var lines := Lines(h, order);
    var head := Join(lines, CRLF);
    var bytes := Serialized(h, order) + body;
    SerializedLines(h, order);
    LinesClean(h, order);
    FindHeaderEnd(lines, body);
    assert bytes == head + CRLF_CRLF + body;
    assert bytes[..|head|] == head && bytes[|head| + 4..] == body;
  }

  /** The written lines parse into the status line and the entries written. */
  lemma LinesRoundTrip(h: Header, order: seq<seq<byte>>)
    requires Writable(h) && forall f | f in order :: f in h.fields
    requires forall i, j | 0 <= i < j < |order| :: order[i] != order[j]
    ensures ParsedLines(Lines(h, order)) == Ok(Header(h.statusLine, Restrict(h.fields, order)))
  {
    var lines := Lines(h, order);
    StatusLineRoundTrip(h);
    assert lines[0] == StatusText(h);
    assert lines[1..] == FieldTexts(h.fields, order);
    FieldsRoundTrip(h.fields, order);
  }

  /** Restricted to an order of all its keys, a map is unchanged. */
  lemma RestrictAll(fields: FieldMap.Fields, order: seq<seq<byte>>)
    requires FieldMap.IsOrder(fields, order)
    ensures Restrict(fields, order) == fields
  {
  }

  /** Whatever follows it, `scan` finds exactly the written header. */
  lemma ScanWritten(h: Header, order: seq<seq<byte>>, body: seq<byte>)
    requires Writable(h) && forall f | f in order :: f in h.fields
    ensures Scan(Serialized(h, order) + body) == Some((Serialized(h, order), body))
  {
    var head := Join(Lines(h, order), CRLF);
    var bytes := Serialized(h, order) + body;
    WrittenSplit(h, order, body);
    assert bytes[..|head| + 4] == Serialized(h, order) && bytes[|head| + 4..] == body;
  }

  /**
   * Round trip: whatever follows it, a written header parses back into the
   * header written, in every field order.
   */
  lemma ParseWritten(h: Header, order: seq<seq<byte>>, body: seq<byte>)
    requires Writable(h) && FieldMap.IsOrder(h.fields, order)
    requires |order| + 1 < USIZE_MAX
    ensures Parsed(Serialized(h, order) + body) == Ok(h)
  {
    var lines := Lines(h, order);
    WrittenSplit(h, order, body);
    ParsedHead(Serialized(h, order) + body, Join(lines, CRLF), body);
    LinesClean(h, order);
    PiecesOfJoin(lines, CRLF, USIZE_MAX);
    LinesRoundTrip(h, order);
    RestrictAll(h.fields, order);
  }

  // ---------------------------------------------------------------- what parse looks at

  /** `parse` reads nothing after the first header end. */
  lemma ParsedIgnoresBody(bytes: seq<byte>, more: seq<byte>)
    requires Scan(bytes).Some?
    ensures Parsed(bytes + more) == Parsed(bytes)
  {
    var i := Find(bytes, CRLF_CRLF).value;
    var s := bytes + more;
    FindPrefix(bytes, more);
    assert s[..i] == bytes[..i];
    var p := Pieces(bytes, CRLF_CRLF, 2);
    var q := Pieces(s, CRLF_CRLF, 2);
    assert p == [bytes[..i]] + Pieces(bytes[i + 4..], CRLF_CRLF, 1);
    assert q == [s[..i]] + Pieces(s[i + 4..], CRLF_CRLF, 1);
    assert |p| == |q| == 2 && p[0] == q[0];
  }

  /** The first header end in `bytes` is also the first in `bytes + more`. */
  lemma FindPrefix(bytes: seq<byte>, more: seq<byte>)
    requires Find(bytes, CRLF_CRLF).Some?
    ensures Find(bytes + more, CRLF_CRLF) == Find(bytes, CRLF_CRLF)
  {
    var i := Find(bytes, CRLF_CRLF).value;
    var s := bytes + more;
    FindSpec(bytes, CRLF_CRLF);
    FindSpec(s, CRLF_CRLF);
    assert s[i..i + 4] == bytes[i..i + 4];
    assert MatchesAt(s, i, CRLF_CRLF);
    forall j | 0 <= j < i
      ensures !MatchesAt(s, j, CRLF_CRLF)
    {
      assert !MatchesAt(bytes, j, CRLF_CRLF);
      assert s[j..j + 4] == bytes[j..j + 4];
    }
  }

  /** A line parser that never reports `TruncatedData` makes a fold that never does. */
  lemma {:induction false} InsertEachNotTruncated(lines: seq<seq<byte>>, parse: LineParser)
    requires forall line :: parse(line).Err? ==> parse(line).error != TruncatedData
    ensures InsertEach(lines, parse).Err? ==> InsertEach(lines, parse).error != TruncatedData
    decreases |lines|
  {
    if |lines| > 0 {
      InsertEachNotTruncated(lines[..|lines| - 1], parse);
    }
  }

  /** `parse` fails with `TruncatedData` exactly when `scan` finds no header end. */
  lemma TruncatedExactlyWithoutEnd(bytes: seq<byte>)
    ensures Parsed(bytes) == Err(TruncatedData) <==> Scan(bytes).None?
  {
    match Find(bytes, CRLF_CRLF)
    case None =>
      assert Pieces(bytes, CRLF_CRLF, 2) == [bytes];
    case Some(i) =>
      assert |Pieces(bytes, CRLF_CRLF, 2)| == 2;
      var head := Pieces(bytes, CRLF_CRLF, 2)[0];
      PiecesCount(head, CRLF, USIZE_MAX);
      var lines := Pieces(head, CRLF, USIZE_MAX);
      StatusLineSplit(lines[0]);
      forall line | ParseFieldLine(line).Err?
        ensures ParseFieldLine(line).error != TruncatedData
      {
        FieldLineSplit(line);
      }
      InsertEachNotTruncated(lines[1..], ParseFieldLine);
  }
}
