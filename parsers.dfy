/**
 * `src/parsers.rs`: the text parser behind the first request and response
 * header types. The received bytes must be UTF-8; the text is trimmed of
 * whitespace at both ends and split into lines at every "\r\n". The first
 * line splits at " " into exactly three parts (the third keeps any further
 * spaces), and every later line splits at its first ": " into a key and a
 * value, collected in a `HashMap<String, String>` whose keys compare exactly.
 */
module Parsers {
  import opened Wrappers
  import opened Bytes
  import opened IoError
  import opened Utf8
  import SliceExt

  /** A header field map: `HashMap<String, String>`, keys compared byte for byte. */
  type Fields = map<seq<byte>, seq<byte>>

  /** The three parts of the first line, in the order they appear. */
  type StartLine = (seq<byte>, seq<byte>, seq<byte>)

  const COLON: byte := 0x3A
  const SPACE: seq<byte> := [SP]
  const COLON_SPACE: seq<byte> := [COLON, SP]

  // --- `str::trim` -------------------------------------------------------

  /**
   * The UTF-8 encoding of a character with the Unicode White_Space property,
   * the characters `char::is_whitespace` accepts: U+0009..U+000D, U+0020,
   * U+0085, U+00A0, U+1680, U+2000..U+200A, U+2028, U+2029, U+202F, U+205F
   * and U+3000.
   */
  predicate IsSpaceChar(c: seq<byte>) {
    if |c| == 1 then 0x09 <= c[0] <= 0x0D || c[0] == 0x20
    else if |c| == 2 then c[0] == 0xC2 && (c[1] == 0x85 || c[1] == 0xA0)
    else if |c| == 3 then
      || (c[0] == 0xE1 && c[1] == 0x9A && c[2] == 0x80)
      || (c[0] == 0xE2 && c[1] == 0x80 && (0x80 <= c[2] <= 0x8A || c[2] == 0xA8 || c[2] == 0xA9 || c[2] == 0xAF))
      || (c[0] == 0xE2 && c[1] == 0x81 && c[2] == 0x9F)
      || (c[0] == 0xE3 && c[1] == 0x80 && c[2] == 0x80)
    else false
  }

  /** The length of the whitespace character `s` starts with, 0 when it starts with none. */
  function LeadingSpaceChar(s: seq<byte>): (n: nat)
    ensures n <= 3 && n <= |s|
    ensures n > 0 ==> IsSpaceChar(s[..n])
    ensures n == 0 ==>
      && (|s| >= 1 ==> !IsSpaceChar(s[..1]))
      && (|s| >= 2 ==> !IsSpaceChar(s[..2]))
      && (|s| >= 3 ==> !IsSpaceChar(s[..3]))
  {
    if |s| >= 1 && IsSpaceChar(s[..1]) then 1
    else if |s| >= 2 && IsSpaceChar(s[..2]) then 2
    else if |s| >= 3 && IsSpaceChar(s[..3]) then 3
    else 0
  }

  /** The length of the whitespace character `s` ends with, 0 when it ends with none. */
  function TrailingSpaceChar(s: seq<byte>): (n: nat)
    ensures n <= 3 && n <= |s|
    ensures n > 0 ==> IsSpaceChar(s[|s| - n..])
    ensures n == 0 ==>
      && (|s| >= 1 ==> !IsSpaceChar(s[|s| - 1..]))
      && (|s| >= 2 ==> !IsSpaceChar(s[|s| - 2..]))
      && (|s| >= 3 ==> !IsSpaceChar(s[|s| - 3..]))
  {
    if |s| >= 1 && IsSpaceChar(s[|s| - 1..]) then 1
    else if |s| >= 2 && IsSpaceChar(s[|s| - 2..]) then 2
    else if |s| >= 3 && IsSpaceChar(s[|s| - 3..]) then 3
    else 0
  }

  /** `str::trim_start` on `s[from..]`: where the text is left once its leading whitespace characters are gone. */
  function TrimStartFrom(s: seq<byte>, from: nat): (m: nat)
    requires from <= |s|
    ensures from <= m <= |s|
    ensures LeadingSpaceChar(s[m..]) == 0
    decreases |s| - from
  {
    var n := LeadingSpaceChar(s[from..]);
    if n == 0 then from else TrimStartFrom(s, from + n)
  }

  /** `str::trim_end` on `s[..upto]`: where the text ends once its trailing whitespace characters are gone. */
  function TrimEndUpto(s: seq<byte>, upto: nat): (m: nat)
    requires upto <= |s|
    ensures m <= upto
    ensures TrailingSpaceChar(s[..m]) == 0
    decreases upto
  {
    var n := TrailingSpaceChar(s[..upto]);
    if n == 0 then upto else TrimEndUpto(s, upto - n)
  }

  /** A prefix of a text that starts with no whitespace character starts with none either. */
  lemma PrefixNoLeadingSpace(s: seq<byte>, k: nat)
    requires LeadingSpaceChar(s) == 0 && k <= |s|
    ensures LeadingSpaceChar(s[..k]) == 0
  {
    if k >= 1 {
      assert s[..k][..1] == s[..1];
    }
    if k >= 2 {
      assert s[..k][..2] == s[..2];
    }
    if k >= 3 {
      assert s[..k][..3] == s[..3];
    }
  }

  /**
   * `str::trim`: a piece of the text that neither starts nor ends with a
   * whitespace character, what is left after removing them at both ends.
   */
  function StrTrim(s: seq<byte>): (r: seq<byte>)
    ensures |r| <= |s|
    ensures LeadingSpaceChar(r) == 0 && TrailingSpaceChar(r) == 0
  {
    var rest := s[TrimStartFrom(s, 0)..];
    var r := rest[..TrimEndUpto(rest, |rest|)];
    PrefixNoLeadingSpace(rest, |r|);
    r
  }

  /** A byte that is printable ASCII and not a space. */
  predicate IsVisible(b: byte) { 0x21 <= b <= 0x7E }

  /** A text ending with a visible byte ends with no whitespace character. */
  lemma VisibleEnd(s: seq<byte>)
    requires s != [] && IsVisible(s[|s| - 1])
    ensures TrailingSpaceChar(s) == 0
  {
    assert !IsSpaceChar(s[|s| - 1..]);
    if |s| >= 2 {
      assert s[|s| - 2..][1] == s[|s| - 1];
    }
    if |s| >= 3 {
      assert s[|s| - 3..][2] == s[|s| - 1];
    }
  }

  /** A text ending with an ASCII whitespace byte ends with a one-byte whitespace character. */
  lemma AsciiSpaceEnd(s: seq<byte>)
    requires s != [] && (0x09 <= s[|s| - 1] <= 0x0D || s[|s| - 1] == 0x20)
    ensures TrailingSpaceChar(s) == 1
  {
    assert s[|s| - 1..] == [s[|s| - 1]];
  }

  /**
   * A text that ends with a visible ASCII byte loses exactly the ASCII
   * whitespace bytes written after it.
   */
  lemma {:induction false} TrimEndAsciiSpace(t: seq<byte>, tail: seq<byte>, j: nat)
    requires t != [] && IsVisible(t[|t| - 1]) && j <= |tail|
    requires forall i | 0 <= i < |tail| :: 0x09 <= tail[i] <= 0x0D || tail[i] == 0x20
    ensures TrimEndUpto(t + tail, |t| + j) == |t|
    decreases j
  {
    var s := t + tail;
    var front := s[..|t| + j];
    if j == 0 {
      assert front == t;
      VisibleEnd(front);
    } else {
      assert front[|front| - 1] == tail[j - 1];
      AsciiSpaceEnd(front);
      TrimEndAsciiSpace(t, tail, j - 1);
    }
  }

  /** Trimming a text that starts and ends visibly and is followed by "\r\n\r\n" gives the text back. */
  lemma TrimHeaderText(t: seq<byte>)
    requires t != [] && IsVisible(t[0]) && IsVisible(t[|t| - 1])
    ensures StrTrim(t + CRLF_CRLF) == t
  {
    var s := t + CRLF_CRLF;
    assert s[..1] == [t[0]];
    assert |s| >= 2 && s[..2][0] == t[0];
    assert |s| >= 3 && s[..3][0] == t[0];
    assert LeadingSpaceChar(s[0..]) == 0 by {
      assert s[0..] == s;
    }
    assert TrimStartFrom(s, 0) == 0;
    assert s[0..] == s;
    TrimEndAsciiSpace(t, CRLF_CRLF, 4);
    assert s[..|t|] == t;
  }

  // --- `split` -----------------------------------------------------------

  /** The piece bound `split` passes on: the limit, or none at all for `str::split`. */
  function Bound(splitLimit: Option<nat>): nat {
    match splitLimit
    case Some(limit) => limit
    case None => SliceExt.USIZE_MAX
  }

  /**
   * What `split(to_split, by, split_limit, expected_length)` returns: the
   * pieces of `to_split` around `by` (at most `split_limit` of them, the last
   * one unsplit), or InvalidData when an expected count is given and the
   * pieces are not that many.
   */
  function Splitted(toSplit: seq<byte>, delimiter: seq<byte>, splitLimit: Option<nat>, expectedLength: Option<nat>)
    : Result<seq<seq<byte>>, ErrorKind>
  {
    var pieces := SliceExt.Pieces(toSplit, delimiter, Bound(splitLimit));
    if expectedLength.Some? && expectedLength.value != |pieces| then Err(InvalidData)
    else Ok(pieces)
  }

  /** The collecting loop of `split`: drains the splitter, piece by piece. */
  method Collect(splitter: SliceExt.Splitter<byte>) returns (splitted: seq<seq<byte>>)
    modifies splitter
    ensures splitted == old(splitter.Rest())
  {
    ghost var pieces := splitter.Rest();
    splitted := [];
    while true
      invariant splitted + splitter.Rest() == pieces
      decreases |pieces| - |splitted|
    {
      ghost var before := splitter.Rest();
      var piece := splitter.Next();
      if piece.None? {
        assert splitter.Rest() == [];
        break;
      }
      ghost var after := splitter.Rest();
      assert before == [piece.value] + after;
      assert splitted + before == (splitted + [piece.value]) + after;
      splitted := splitted + [piece.value];
    }
  }

  /** `split`: collects the pieces one by one, then checks their number. */
  method Split(toSplit: seq<byte>, delimiter: seq<byte>, splitLimit: Option<nat>, expectedLength: Option<nat>)
    returns (r: Result<seq<seq<byte>>, ErrorKind>)
    requires |delimiter| > 0
    ensures r == Splitted(toSplit, delimiter, splitLimit, expectedLength)
    ensures r.Err? <==> expectedLength.Some? && expectedLength.value != |SliceExt.Pieces(toSplit, delimiter, Bound(splitLimit))|
    ensures r.Err? ==> r.error == InvalidData
  {
    var n := Bound(splitLimit);
    var splitter: SliceExt.Splitter<byte>;
    if splitLimit.Some? {
      splitter := new SliceExt.Splitter.SplitN(toSplit, n, delimiter);
    } else {
      splitter := new SliceExt.Splitter.Split(toSplit, delimiter);
    }
    var splitted := Collect(splitter);
    if expectedLength.Some? && expectedLength.value != |splitted| {
      return Err(InvalidData);
    }
    return Ok(splitted);
  }

  /**
   * `split` with a limit yields at most that many pieces and with no limit
   * cuts at every occurrence; it always yields at least one piece when any
   * are allowed, and the pieces joined with `by` give the input back.
   */
  lemma SplitPieces(toSplit: seq<byte>, delimiter: seq<byte>, splitLimit: Option<nat>)
    requires |delimiter| > 0 && |toSplit| + 1 < SliceExt.USIZE_MAX
    ensures var pieces := SliceExt.Pieces(toSplit, delimiter, Bound(splitLimit));
      && (splitLimit.Some? ==> |pieces| <= splitLimit.value)
      && (Bound(splitLimit) >= 1 ==> |pieces| >= 1 && Join(pieces, delimiter) == toSplit)
      && (forall k | 0 <= k < |pieces| - 1 :: Find(pieces[k], delimiter).None?)
      && (splitLimit.None? ==> forall k | 0 <= k < |pieces| :: Find(pieces[k], delimiter).None?)
  {
    var n := Bound(splitLimit);
    var pieces := SliceExt.Pieces(toSplit, delimiter, n);
    SliceExt.PiecesCount(toSplit, delimiter, n);
    SliceExt.PiecesClean(toSplit, delimiter, n);
    assert forall k | 0 <= k < |pieces| - 1 :: Find(pieces[k], delimiter).None?;
    if n >= 1 {
      SliceExt.PiecesJoin(toSplit, delimiter, n);
    }
    if splitLimit.None? {
      SliceExt.PiecesSize(toSplit, delimiter, n);
      SliceExt.PiecesLastClean(toSplit, delimiter, n);
      assert 0 < |pieces| < n;
    }
  }

  // --- `parse_lines`, `parse_header_line`, `parse_request_line` ---------

  /** The lines of a text: its pieces around every "\r\n". */
  function Lines(text: seq<byte>): seq<seq<byte>> {
    SliceExt.Pieces(text, CRLF, SliceExt.USIZE_MAX)
  }

  /**
   * `parse_lines`: the text split at every "\r\n". It never fails (the guard
   * against no lines at all cannot trigger), and the lines joined with
   * "\r\n" are the text.
   */
  function ParseLines(request: seq<byte>): (r: Result<seq<seq<byte>>, ErrorKind>)
    ensures r == Ok(Lines(request))
    ensures |r.value| >= 1 && Join(r.value, CRLF) == request
  {
    SliceExt.PiecesCount(request, CRLF, SliceExt.USIZE_MAX);
    SliceExt.PiecesJoin(request, CRLF, SliceExt.USIZE_MAX);
    var splitted := Splitted(request, CRLF, None, None).value;
    if |splitted| < 1 then Err(InvalidData) else Ok(splitted)
  }

  /** `parse_header_line`: exactly three pieces around " ", the third unsplit. */
  function ParseHeaderLine(headerLine: seq<byte>): Result<StartLine, ErrorKind> {
    var elements :- Splitted(headerLine, SPACE, Some(3), Some(3));
    Ok((elements[0], elements[1], elements[2]))
  }

  /** `parse_request_line`: exactly two pieces around the first ": ". */
  function ParseRequestLine(requestLine: seq<byte>): Result<(seq<byte>, seq<byte>), ErrorKind> {
    var elements :- Splitted(requestLine, COLON_SPACE, Some(2), Some(2));
    Ok((elements[0], elements[1]))
  }

  /** Two parts joined: the first, the separator, the second. */
  lemma JoinTwo(a: seq<byte>, b: seq<byte>, sep: seq<byte>)
    ensures Join([a, b], sep) == a + sep + b
  {
    assert [a, b][1..] == [b];
  }

  /** Three parts joined: each pair with the separator between them. */
  lemma JoinThree(a: seq<byte>, b: seq<byte>, c: seq<byte>, sep: seq<byte>)
    ensures Join([a, b, c], sep) == a + sep + b + sep + c
  {
    assert [a, b, c][1..] == [b, c];
    JoinTwo(b, c, sep);
  }

  /** Three pieces around " ": the line is rebuilt from them and holds two spaces. */
  lemma ThreeHeaderPieces(line: seq<byte>)
    requires |SliceExt.Pieces(line, SPACE, 3)| == 3
    ensures var ps := SliceExt.Pieces(line, SPACE, 3);
      && line == ps[0] + SPACE + ps[1] + SPACE + ps[2]
      && Excludes(ps[0], SP) && Excludes(ps[1], SP)
      && multiset(line)[SP] >= 2
  {
    var ps := SliceExt.Pieces(line, SPACE, 3);
    SliceExt.PiecesClean(line, SPACE, 3);
    SliceExt.PiecesJoin(line, SPACE, 3);
    assert ps == [ps[0], ps[1], ps[2]];
    JoinThree(ps[0], ps[1], ps[2], SPACE);
    SliceExt.FindByteNone(ps[0], SP);
    SliceExt.FindByteNone(ps[1], SP);
    assert multiset(line) == multiset(ps[0]) + multiset{SP} + multiset(ps[1]) + multiset{SP} + multiset(ps[2]);
  }

  /** Fewer than three pieces around " ": the line holds at most one space. */
  lemma FewerHeaderPieces(line: seq<byte>)
    requires |SliceExt.Pieces(line, SPACE, 3)| != 3
    ensures multiset(line)[SP] < 2
  {
    var ps := SliceExt.Pieces(line, SPACE, 3);
    SliceExt.PiecesCount(line, SPACE, 3);
    SliceExt.PiecesClean(line, SPACE, 3);
    SliceExt.PiecesJoin(line, SPACE, 3);
    SliceExt.PiecesLastClean(line, SPACE, 3);
    if |ps| == 2 {
      assert ps == [ps[0], ps[1]];
      JoinTwo(ps[0], ps[1], SPACE);
      SliceExt.FindByteNone(ps[0], SP);
      SliceExt.FindByteNone(ps[1], SP);
      assert multiset(line) == multiset(ps[0]) + multiset{SP} + multiset(ps[1]);
      assert SP !in multiset(ps[0]) && SP !in multiset(ps[1]);
    } else {
      assert |ps| == 1 && line == ps[0];
      SliceExt.FindByteNone(ps[0], SP);
      assert SP !in multiset(line);
    }
  }

  /**
   * The first line parses exactly when it holds at least two spaces; then it
   * is the first part, a space, the second part, a space and the third part,
   * the first two holding no space.
   */
  lemma HeaderLineParts(line: seq<byte>)
    ensures ParseHeaderLine(line).Ok? <==> multiset(line)[SP] >= 2
    ensures ParseHeaderLine(line).Err? ==> ParseHeaderLine(line).error == InvalidData
    ensures ParseHeaderLine(line).Ok? ==>
      var (a, b, c) := ParseHeaderLine(line).value;
      && line == a + SPACE + b + SPACE + c
      && Excludes(a, SP) && Excludes(b, SP)
  {
    var ps := SliceExt.Pieces(line, SPACE, 3);
    if |ps| == 3 {
      ThreeHeaderPieces(line);
      assert ParseHeaderLine(line) == Ok((ps[0], ps[1], ps[2]));
    } else {
      FewerHeaderPieces(line);
      assert ParseHeaderLine(line) == Err(InvalidData);
    }
  }

  /** Three parts, the first two without a space, read back from their line. */
  lemma HeaderLineRoundTrip(a: seq<byte>, b: seq<byte>, c: seq<byte>)
    requires Excludes(a, SP) && Excludes(b, SP)
    ensures ParseHeaderLine(a + SPACE + b + SPACE + c) == Ok((a, b, c))
  {
    var parts := [a, b, c];
    JoinThree(a, b, c, SPACE);
    SliceExt.PiecesOfJoin(parts, SPACE, 3);
  }

  /** An occurrence of ": " found in `key + ": " + value` when `key` holds none is the written one. */
  lemma FindSeparator(key: seq<byte>, value: seq<byte>)
    requires Find(key, COLON_SPACE).None?
    ensures Find(key + COLON_SPACE + value, COLON_SPACE) == Some(|key|)
  {
    var s := key + COLON_SPACE + value;
    FindSpec(key, COLON_SPACE);
    FindSpec(s, COLON_SPACE);
    assert MatchesAt(s, |key|, COLON_SPACE) by {
      assert s[|key|..|key| + 2] == COLON_SPACE;
    }
    forall j | 0 <= j < |key|
      ensures !MatchesAt(s, j, COLON_SPACE)
    {
      if j + 2 <= |key| {
        assert s[j..j + 2] == key[j..j + 2];
        assert !MatchesAt(key, j, COLON_SPACE);
      } else {
        assert s[j + 1] == COLON;
      }
    }
    var f := Find(s, COLON_SPACE);
    assert f.Some?;
    assert !(f.value < |key|);
    assert !(f.value > |key|);
  }

  /**
   * A later line parses exactly when it contains ": ", and then it is the
   * key, the first ": " and the value, the key holding no ": ".
   */
  lemma RequestLineParts(line: seq<byte>)
    ensures ParseRequestLine(line).Ok? <==> Find(line, COLON_SPACE).Some?
    ensures ParseRequestLine(line).Err? ==> ParseRequestLine(line).error == InvalidData
    ensures ParseRequestLine(line).Ok? ==>
      var (key, value) := ParseRequestLine(line).value;
      line == key + COLON_SPACE + value && Find(key, COLON_SPACE).None?
  {
    var f := Find(line, COLON_SPACE);
    FindSpec(line, COLON_SPACE);
    if f.Some? {
      var i := f.value;
      FindSpec(line[..i], COLON_SPACE);
      SliceExt.PiecesStep(line, COLON_SPACE, 2, i);
      SliceExt.SplitAround(line, i, COLON_SPACE);
      assert SliceExt.Pieces(line, COLON_SPACE, 2) == [line[..i], line[i + 2..]];
      forall j | 0 <= j < |line[..i]|
        ensures !MatchesAt(line[..i], j, COLON_SPACE)
      {
        if MatchesAt(line[..i], j, COLON_SPACE) {
          SliceExt.MatchesInPrefix(line, i, j, COLON_SPACE);
        }
      }
    } else {
      SliceExt.PiecesWhole(line, COLON_SPACE, 2);
    }
  }

  /** A key without ": " and a value read back from their field line. */
  lemma RequestLineRoundTrip(key: seq<byte>, value: seq<byte>)
    requires Find(key, COLON_SPACE).None?
    ensures ParseRequestLine(key + COLON_SPACE + value) == Ok((key, value))
  {
    var s := key + COLON_SPACE + value;
    FindSeparator(key, value);
    SliceExt.PiecesStep(s, COLON_SPACE, 2, |key|);
    assert s[..|key|] == key && s[|key| + 2..] == value;
  }

  // --- the field map ------------------------------------------------------

  /**
   * The field map the loop over the later lines builds: each line's key is
   * inserted with its value in turn, and the first line that does not parse
   * stops the loop with its error.
   */
  function InsertLines(lines: seq<seq<byte>>): Result<Fields, ErrorKind>
    decreases |lines|
  {
    if lines == [] then Ok(map[])
    else
      var fields :- InsertLines(lines[..|lines| - 1]);
      var parsed :- ParseRequestLine(lines[|lines| - 1]);
      Ok(fields[parsed.0 := parsed.1])
  }

  /** The key and value of a line that parses. */
  function Entry(line: seq<byte>): (seq<byte>, seq<byte>)
    requires ParseRequestLine(line).Ok?
  {
    ParseRequestLine(line).value
  }

  /** The later lines build a map exactly when each of them parses; otherwise the error is InvalidData. */
  lemma {:induction false} InsertLinesOk(lines: seq<seq<byte>>)
    ensures InsertLines(lines).Ok? <==> forall i | 0 <= i < |lines| :: ParseRequestLine(lines[i]).Ok?
    ensures InsertLines(lines).Err? ==> InsertLines(lines).error == InvalidData
    decreases |lines|
  {
    if lines != [] {
      var init := lines[..|lines| - 1];
      InsertLinesOk(init);
      RequestLineParts(lines[|lines| - 1]);
      assert forall i | 0 <= i < |init| :: init[i] == lines[i];
    }
  }

  /** The map's keys are exactly the keys of the lines. */
  lemma {:induction false} InsertedKeys(lines: seq<seq<byte>>, key: seq<byte>)
    requires InsertLines(lines).Ok?
    ensures forall i | 0 <= i < |lines| :: ParseRequestLine(lines[i]).Ok?
    ensures key in InsertLines(lines).value <==> exists i | 0 <= i < |lines| :: Entry(lines[i]).0 == key
    decreases |lines|
  {
    InsertLinesOk(lines);
    if lines != [] {
      var init := lines[..|lines| - 1];
      InsertedKeys(init, key);
      assert forall i | 0 <= i < |init| :: init[i] == lines[i];
      if key in InsertLines(lines).value && Entry(lines[|lines| - 1]).0 != key {
        var i :| 0 <= i < |init| && Entry(init[i]).0 == key;
        assert Entry(lines[i]).0 == key;
      }
    }
  }

  /**
   * For lines with the same key (compared exactly), the later line's value
   * wins: a line no later line shares its key with gives the key's value.
   */
  lemma {:induction false} LaterLineWins(lines: seq<seq<byte>>, i: nat)
    requires InsertLines(lines).Ok? && i < |lines|
    requires forall j | 0 <= j < |lines| :: ParseRequestLine(lines[j]).Ok?
    requires forall j | i < j < |lines| :: Entry(lines[j]).0 != Entry(lines[i]).0
    ensures Entry(lines[i]).0 in InsertLines(lines).value
    ensures InsertLines(lines).value[Entry(lines[i]).0] == Entry(lines[i]).1
    decreases |lines|
  {
    if i < |lines| - 1 {
      var init := lines[..|lines| - 1];
      assert forall j | 0 <= j < |init| :: init[j] == lines[j];
      LaterLineWins(init, i);
    }
  }

  // --- `parse` -------------------------------------------------------------

  /**
   * What `parse` returns: InvalidData for bytes that are not UTF-8;
   * otherwise the trimmed text's lines, the first parsed as the start line
   * and the others inserted into the field map in order.
   */
  function Parsed(request: seq<byte>): Result<(StartLine, Fields), ErrorKind> {
    if !IsUtf8(request) then Err(InvalidData)
    else
      var lines :- ParseLines(StrTrim(request));
      var headerLine :- ParseHeaderLine(lines[0]);
      var fields :- InsertLines(lines[1..]);
      Ok((headerLine, fields))
  }

  /** `parse`: checks the encoding, trims, splits into lines and fills the map line by line. */
  method Parse(request: seq<byte>) returns (r: Result<(StartLine, Fields), ErrorKind>)
    ensures r == Parsed(request)
  {
    if !IsUtf8(request) {
      return Err(InvalidData);
    }
    var text := StrTrim(request);
    var lines := ParseLines(text).value;
    var headerLine := ParseHeaderLine(lines[0]);
    if headerLine.Err? {
      return Err(headerLine.error);
    }
    var fields := InsertAll(lines[1..]);
    if fields.Err? {
      return Err(fields.error);
    }
    return Ok((headerLine.value, fields.value));
  }

  /** The loop of `parse` that inserts the later lines' keys and values one by one. */
  method InsertAll(lines: seq<seq<byte>>) returns (r: Result<Fields, ErrorKind>)
    ensures r == InsertLines(lines)
  {
    var fields: Fields := map[];
    for i := 0 to |lines|
      invariant InsertLines(lines[..i]) == Ok(fields)
    {
      var parsed := ParseRequestLine(lines[i]);
      if parsed.Err? {
        RequestLineParts(lines[i]);
        InsertLinesPrefixErr(lines, i + 1);
        return Err(parsed.error);
      }
      InsertLinesStep(lines, i);
      fields := fields[parsed.value.0 := parsed.value.1];
    }
    assert lines[..|lines|] == lines;
    return Ok(fields);
  }

  /** One more line that parses adds its entry to the map of the lines before it. */
  lemma InsertLinesStep(lines: seq<seq<byte>>, i: nat)
    requires i < |lines| && InsertLines(lines[..i]).Ok? && ParseRequestLine(lines[i]).Ok?
    ensures InsertLines(lines[..i + 1]) == Ok(InsertLines(lines[..i]).value[Entry(lines[i]).0 := Entry(lines[i]).1])
  {
    assert lines[..i + 1][..i] == lines[..i];
  }

  /** A line that does not parse makes the whole map fail, as InvalidData. */
  lemma InsertLinesPrefixErr(lines: seq<seq<byte>>, i: nat)
    requires 0 < i <= |lines| && ParseRequestLine(lines[i - 1]).Err?
    ensures InsertLines(lines) == Err(InvalidData)
  {
    InsertLinesOk(lines);
  }

  /**
   * `parse` fails, always with InvalidData, exactly when the bytes are not
   * UTF-8, the first line of the trimmed text holds fewer than two spaces,
   * or a later line holds no ": ".
   */
  lemma ParsedErrors(request: seq<byte>)
    ensures Parsed(request).Err? ==> Parsed(request).error == InvalidData
    ensures Parsed(request).Ok? <==>
      && IsUtf8(request)
      && multiset(Lines(StrTrim(request))[0])[SP] >= 2
      && forall i | 1 <= i < |Lines(StrTrim(request))| :: Find(Lines(StrTrim(request))[i], COLON_SPACE).Some?
  {
    if IsUtf8(request) {
      var lines := ParseLines(StrTrim(request)).value;
      HeaderLineParts(lines[0]);
      var later := lines[1..];
      InsertLinesOk(later);
      forall i | 0 <= i < |later|
        ensures ParseRequestLine(later[i]).Ok? <==> Find(lines[i + 1], COLON_SPACE).Some?
      {
        RequestLineParts(later[i]);
      }
      if forall i | 1 <= i < |lines| :: Find(lines[i], COLON_SPACE).Some? {
        forall i | 0 <= i < |later|
          ensures ParseRequestLine(later[i]).Ok?
        {
          assert Find(lines[i + 1], COLON_SPACE).Some?;
        }
      } else {
        var i :| 1 <= i < |lines| && Find(lines[i], COLON_SPACE).None?;
        assert !ParseRequestLine(later[i - 1]).Ok?;
      }
    }
  }

  // --- the text the header writers produce --------------------------------

  /** A field's line without its line break: `format!("{0}: {1}")`. */
  function FieldLine(key: seq<byte>, value: seq<byte>): seq<byte> {
    key + COLON_SPACE + value
  }

  /** The start line without its line break: `format!("{0} {1} {2}")`. */
  function StartLineText(start: StartLine): seq<byte> {
    start.0 + SPACE + start.1 + SPACE + start.2
  }

  /** `order` lists each key of `fields` once: the map's iteration order. */
  predicate IsOrder(order: seq<seq<byte>>, fields: Fields) {
    && (forall i, j | 0 <= i < j < |order| :: order[i] != order[j])
    && (forall k | k in order :: k in fields)
    && (forall k | k in fields :: k in order)
  }

  /** The field lines, in the order `order` lists the keys. */
  function FieldLines(fields: Fields, order: seq<seq<byte>>): (lines: seq<seq<byte>>)
    requires forall k | k in order :: k in fields
    ensures |lines| == |order|
    ensures forall i | 0 <= i < |order| :: lines[i] == FieldLine(order[i], fields[order[i]])
  {
    if order == [] then []
    else FieldLines(fields, order[..|order| - 1]) + [FieldLine(order[|order| - 1], fields[order[|order| - 1]])]
  }

  /**
   * The text `into_writer` builds: the start line and then a line per field
   * in the map's iteration order, each ended by "\r\n", and a final "\r\n".
   */
  function HeaderText(start: StartLine, fields: Fields, order: seq<seq<byte>>): seq<byte>
    requires forall k | k in order :: k in fields
  {
    Join(HeaderLines(start, fields, order), CRLF) + CRLF_CRLF
  }

  /** Inserting the lines of some of a map's keys gives the map restricted to those keys. */
  lemma {:induction false} InsertFieldLines(fields: Fields, order: seq<seq<byte>>)
    requires forall k | k in order :: k in fields
    requires forall k | k in order :: Find(k, COLON_SPACE).None?
    ensures InsertLines(FieldLines(fields, order)) == Ok(map k | k in order :: fields[k])
    decreases |order|
  {
    if order != [] {
      var init := order[..|order| - 1];
      var last := order[|order| - 1];
      var lines := FieldLines(fields, order);
      assert order == init + [last];
      assert forall k | k in init :: k in order;
      InsertFieldLines(fields, init);
      assert lines[..|lines| - 1] == FieldLines(fields, init);
      assert lines[|lines| - 1] == FieldLine(last, fields[last]);
      RequestLineRoundTrip(last, fields[last]);
      assert InsertLines(lines) == Ok((map k | k in init :: fields[k])[last := fields[last]]);
      RestrictAppend(fields, init, last);
    }
  }

  /** Restricting a map to one more key adds that key's entry. */
  lemma RestrictAppend(fields: Fields, init: seq<seq<byte>>, last: seq<byte>)
    requires forall k | k in init :: k in fields
    requires last in fields
    ensures (map k | k in init :: fields[k])[last := fields[last]] == map k | k in init + [last] :: fields[k]
  {
    var a := (map k | k in init :: fields[k])[last := fields[last]];
    var b := map k | k in init + [last] :: fields[k];
    assert forall k :: k in init + [last] <==> k in init || k == last;
    assert a.Keys == b.Keys;
  }

  /** Every text is UTF-8 when its parts and separator are. */
  lemma {:induction false} JoinIsUtf8(parts: seq<seq<byte>>, sep: seq<byte>)
    requires IsUtf8(sep) && forall i | 0 <= i < |parts| :: IsUtf8(parts[i])
    ensures IsUtf8(Join(parts, sep))
    decreases |parts|
  {
    if |parts| > 1 {
      var tail := parts[1..];
      assert forall i | 0 <= i < |tail| :: tail[i] == parts[i + 1];
      JoinIsUtf8(tail, sep);
      var rest := Join(tail, sep);
      assert Join(parts, sep) == parts[0] + sep + rest;
      assert IsUtf8(parts[0]);
      ConcatIsUtf8(parts[0], sep);
      ConcatIsUtf8(parts[0] + sep, rest);
    } else if |parts| == 1 {
      assert Join(parts, sep) == parts[0];
      assert IsUtf8(parts[0]);
    } else {
      assert Join(parts, sep) == [];
      assert IsUtf8([]);
    }
  }

  /**
   * What the writers require for their text to read back: `String`s (UTF-8)
   * without CR, the first two start-line parts without a space, keys without
   * ':', and the text starting and ending with a visible ASCII byte, as
   * `trim` would otherwise remove part of it.
   */
  predicate Writable(start: StartLine, fields: Fields, order: seq<seq<byte>>) {
    && IsOrder(order, fields)
    && |order| + 1 < SliceExt.USIZE_MAX
    && IsUtf8(start.0) && IsUtf8(start.1) && IsUtf8(start.2)
    && Excludes(start.0, CR) && Excludes(start.1, CR) && Excludes(start.2, CR)
    && Excludes(start.0, SP) && Excludes(start.1, SP)
    && (forall k | k in fields :: IsUtf8(k) && IsUtf8(fields[k]))
    && (forall k | k in fields :: Excludes(k, CR) && Excludes(k, COLON) && Excludes(fields[k], CR))
    && start.0 != [] && IsVisible(start.0[0])
    && var last := if order == [] then start.2 else fields[order[|order| - 1]];
       last != [] && IsVisible(last[|last| - 1])
  }

  /** A non-empty text of visible ASCII bytes only. */
  predicate AllVisible(s: seq<byte>) {
    s != [] && forall i | 0 <= i < |s| :: IsVisible(s[i])
  }

  /**
   * A start line with no fields is writable when its first and last parts are
   * visible ASCII words and its middle part is UTF-8 without CR or space.
   */
  lemma BareWritable(start: StartLine)
    requires AllVisible(start.0) && AllVisible(start.2)
    requires IsUtf8(start.1) && Excludes(start.1, CR) && Excludes(start.1, SP)
    ensures Writable(start, map[], [])
  {
    AsciiIsUtf8(start.0);
    AsciiIsUtf8(start.2);
  }

  /** The lines of a writable header are UTF-8, and none but the last contains CR. */
  lemma WritableLines(start: StartLine, fields: Fields, order: seq<seq<byte>>, lines: seq<seq<byte>>)
    requires Writable(start, fields, order)
    requires lines == HeaderLines(start, fields, order)
    ensures forall i | 0 <= i < |lines| :: IsUtf8(lines[i]) && Excludes(lines[i], CR)
  {
    assert IsUtf8(lines[0]) && Excludes(lines[0], CR) by {
      AsciiIsUtf8(SPACE);
      ConcatIsUtf8(start.0, SPACE);
      ConcatIsUtf8(start.0 + SPACE, start.1);
      ConcatIsUtf8(start.0 + SPACE + start.1, SPACE);
      ConcatIsUtf8(start.0 + SPACE + start.1 + SPACE, start.2);
      ExcludesJoin5(start.0, SPACE, start.1, SPACE, start.2, CR);
    }
    forall i | 1 <= i < |lines|
      ensures IsUtf8(lines[i]) && Excludes(lines[i], CR)
    {
      var k := order[i - 1];
      assert lines[i] == k + COLON_SPACE + fields[k];
      FieldLineUtf8(k, fields[k]);
    }
  }

  /** A field line of a UTF-8, CR-free key and value is UTF-8 and CR-free. */
  lemma FieldLineUtf8(key: seq<byte>, value: seq<byte>)
    requires IsUtf8(key) && IsUtf8(value) && Excludes(key, CR) && Excludes(value, CR)
    ensures IsUtf8(key + COLON_SPACE + value) && Excludes(key + COLON_SPACE + value, CR)
  {
    AsciiIsUtf8(COLON_SPACE);
    ConcatIsUtf8(key, COLON_SPACE);
    ConcatIsUtf8(key + COLON_SPACE, value);
    ExcludesConcat(key, COLON_SPACE, CR);
    ExcludesConcat(key + COLON_SPACE, value, CR);
  }

  /** Five pieces without a byte make a text without it. */
  lemma ExcludesJoin5(a: seq<byte>, b: seq<byte>, c: seq<byte>, d: seq<byte>, e: seq<byte>, x: byte)
    requires Excludes(a, x) && Excludes(b, x) && Excludes(c, x) && Excludes(d, x) && Excludes(e, x)
    ensures Excludes(a + b + c + d + e, x)
  {
    ExcludesConcat(a, b, x);
    ExcludesConcat(a + b, c, x);
    ExcludesConcat(a + b + c, d, x);
    ExcludesConcat(a + b + c + d, e, x);
  }

  /** The lines a header's text is made of: the start line, then one per field. */
  function HeaderLines(start: StartLine, fields: Fields, order: seq<seq<byte>>): seq<seq<byte>>
    requires forall k | k in order :: k in fields
  {
    [StartLineText(start)] + FieldLines(fields, order)
  }

  /** A writable header's text is UTF-8. */
  lemma HeaderTextUtf8(start: StartLine, fields: Fields, order: seq<seq<byte>>)
    requires Writable(start, fields, order)
    ensures IsUtf8(HeaderText(start, fields, order))
  {
    var lines := HeaderLines(start, fields, order);
    var body := Join(lines, CRLF);
    assert HeaderText(start, fields, order) == body + CRLF_CRLF;
    assert IsUtf8(body) by {
      WritableLines(start, fields, order, lines);
      AsciiIsUtf8(CRLF);
      JoinIsUtf8(lines, CRLF);
    }
    AsciiIsUtf8(CRLF_CRLF);
    ConcatIsUtf8(body, CRLF_CRLF);
  }

  /** A writable header's lines joined by "\r\n" start and end with a visible byte. */
  lemma HeaderBodyEnds(start: StartLine, fields: Fields, order: seq<seq<byte>>)
    requires Writable(start, fields, order)
    ensures var body := Join(HeaderLines(start, fields, order), CRLF);
      body != [] && IsVisible(body[0]) && IsVisible(body[|body| - 1])
  {
    var lines := HeaderLines(start, fields, order);
    JoinFirst(lines, CRLF);
    JoinLast(lines, CRLF);
    var lastLine := lines[|lines| - 1];
    if order == [] {
      assert lastLine == StartLineText(start);
    } else {
      assert lastLine == FieldLine(order[|order| - 1], fields[order[|order| - 1]]);
    }
  }

  /** Trimming a writable header's text leaves its lines joined by "\r\n". */
  lemma TrimmedHeaderText(start: StartLine, fields: Fields, order: seq<seq<byte>>)
    requires Writable(start, fields, order)
    ensures StrTrim(HeaderText(start, fields, order)) == Join(HeaderLines(start, fields, order), CRLF)
  {
    HeaderBodyEnds(start, fields, order);
    TrimHeaderText(Join(HeaderLines(start, fields, order), CRLF));
  }

  /** A writable header's lines joined by "\r\n" split back into those lines. */
  lemma HeaderTextLines(start: StartLine, fields: Fields, order: seq<seq<byte>>)
    requires Writable(start, fields, order)
    ensures ParseLines(Join(HeaderLines(start, fields, order), CRLF)) == Ok(HeaderLines(start, fields, order))
  {
    var lines := HeaderLines(start, fields, order);
    WritableLines(start, fields, order, lines);
    SliceExt.PiecesOfJoin(lines, CRLF, SliceExt.USIZE_MAX);
  }

  /** The text the writers build for a writable header parses back to its start line and fields. */
  lemma ParseHeaderText(start: StartLine, fields: Fields, order: seq<seq<byte>>)
    requires Writable(start, fields, order)
    ensures Parsed(HeaderText(start, fields, order)) == Ok((start, fields))
  {
    var lines := HeaderLines(start, fields, order);
    HeaderTextUtf8(start, fields, order);
    TrimmedHeaderText(start, fields, order);
    HeaderTextLines(start, fields, order);
    HeaderLineRoundTrip(start.0, start.1, start.2);
    assert lines[0] == StartLineText(start);
    assert lines[1..] == FieldLines(fields, order);
    KeysWithoutSeparator(fields, order);
    InsertFieldLines(fields, order);
    OrderCoversMap(fields, order);
  }

  /** Keys without ':' hold no ": " either. */
  lemma KeysWithoutSeparator(fields: Fields, order: seq<seq<byte>>)
    requires forall k | k in order :: k in fields && Excludes(k, COLON)
    ensures forall k | k in order :: Find(k, COLON_SPACE).None?
  {
    forall k | k in order
      ensures Find(k, COLON_SPACE).None?
    {
      forall j | 0 <= j < |k|
        ensures !MatchesAt(k, j, COLON_SPACE)
      {
        assert k[j] != COLON;
        if j + 2 <= |k| {
          assert k[j..j + 2][0] == k[j];
        }
      }
      FindSpec(k, COLON_SPACE);
    }
  }

  /** The map restricted to the keys its iteration order lists is the whole map. */
  lemma OrderCoversMap(fields: Fields, order: seq<seq<byte>>)
    requires IsOrder(order, fields)
    ensures (map k | k in order :: fields[k]) == fields
  {
    var m := map k | k in order :: fields[k];
    assert m.Keys == fields.Keys;
    forall k | k in m
      ensures m[k] == fields[k]
    {
    }
  }

  /** A non-empty join starts with the first part's first byte. */
  lemma JoinFirst(parts: seq<seq<byte>>, sep: seq<byte>)
    requires parts != [] && |parts[0]| > 0
    ensures |Join(parts, sep)| > 0 && Join(parts, sep)[0] == parts[0][0]
  {
  }
}
