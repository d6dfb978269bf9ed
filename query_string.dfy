/**
 * `src/query_string.rs`: the query of a URI (section 3.4 of RFC 3986) as a
 * map from `Data<UriQuery>` keys to values, parsed from a `Data<Uri>` and
 * written back as "?k=v&k".
 */
module Query {
  import opened Wrappers
  import opened Bytes
  import opened Encodings
  import opened HttpError
  import opened SliceExt
  import opened IterExt
  import D = EncodedData

  const QUESTION: byte := '?' as int
  const HASH: byte := '#' as int
  const AMPERSAND: byte := '&' as int
  const EQUALS: byte := '=' as int

  /** Bytes a `Data<UriQuery>` may hold. */
  predicate IsQueryText(s: seq<byte>) { EscapedValid(s, QueryChars) }

  /**
   * `QueryString`: a `HashMap` from `Data<UriQuery>` keys to values. `UriQuery`
   * keeps the default `is_eq`, so two keys are the same key exactly when their
   * bytes are equal.
   */
  datatype QueryString = QueryString(fields: map<seq<byte>, seq<byte>>) {
    /** Every key and value is a valid `Data<UriQuery>`. */
    predicate Valid() {
      forall k | k in fields :: IsQueryText(k) && IsQueryText(fields[k])
    }
  }

  // ---------------------------------------------------------------- fields

  /** `field(key)`: the value stored for `key`, if any, which is valid query text like every stored value. */
  function Field(q: QueryString, key: seq<byte>): (r: Option<seq<byte>>)
    ensures r.None? <==> key !in q.fields
    ensures q.Valid() && r.Some? ==> IsQueryText(r.value)
  {
    if key in q.fields then Some(q.fields[key]) else None
  }

  /** `insert(key, value)`: `HashMap::insert`, which replaces an earlier value for `key`. */
  function Insert(q: QueryString, key: seq<byte>, value: seq<byte>): (r: QueryString)
    requires q.Valid() && IsQueryText(key) && IsQueryText(value)
    ensures r.Valid()
    ensures r.fields.Keys == q.fields.Keys + {key}
  {
    QueryString(q.fields[key := value])
  }

  /** After `insert(key, value)`, `field(key)` is the new value and every other field is as it was. */
  lemma FieldAfterInsert(q: QueryString, key: seq<byte>, value: seq<byte>, other: seq<byte>)
    requires q.Valid() && IsQueryText(key) && IsQueryText(value)
    ensures Field(Insert(q, key, value), key) == Some(value)
    ensures other != key ==> Field(Insert(q, key, value), other) == Field(q, other)
  {
  }

  // ---------------------------------------------------------------- to_string

  /** Each key of the map exactly once: an order `HashMap::iter` may visit them in. */
  predicate IsOrder(fields: map<seq<byte>, seq<byte>>, order: seq<seq<byte>>) {
    && (forall i, j | 0 <= i < j < |order| :: order[i] != order[j])
    && (forall k | k in fields :: k in order)
    && (forall k | k in order :: k in fields)
  }

  /** One field as `to_string` shows it, without its '&': "k", or "k=v" for a non-empty value. */
  function PairText(key: seq<byte>, value: seq<byte>): seq<byte> {
    if value == [] then key else key + [EQUALS] + value
  }

  /** What `to_string` writes for the fields in `order`: each field followed by '&'. */
  function FieldsBytes(fields: map<seq<byte>, seq<byte>>, order: seq<seq<byte>>): seq<byte>
    requires forall k | k in order :: k in fields
  {
    if order == [] then []
    else
      var key := order[|order| - 1];
      FieldsBytes(fields, order[..|order| - 1]) + PairText(key, fields[key]) + [AMPERSAND]
  }

  /** `s` without its trailing run of `b` (`trim_end_matches`). */
  function TrimTrailing(s: seq<byte>, b: byte): (r: seq<byte>)
    ensures |r| <= |s| && r == s[..|r|]
    ensures forall i | |r| <= i < |s| :: s[i] == b
    ensures r == [] || r[|r| - 1] != b
  {
    if s != [] && s[|s| - 1] == b then TrimTrailing(s[..|s| - 1], b) else s
  }

  /**
   * `to_string` when the map iterates in `order`: '?', then each field and an
   * '&', then the trailing '&'s removed.
   */
  function ToString(q: QueryString, order: seq<seq<byte>>): (r: seq<byte>)
    requires forall k | k in order :: k in q.fields
    ensures 0 < |r| && r[0] == QUESTION
  {
    var written := [QUESTION] + FieldsBytes(q.fields, order);
    assert written[0] != AMPERSAND;
    TrimTrailing(written, AMPERSAND)
  }

  // ---------------------------------------------------------------- try_from

  /**
   * The query of a URI: the bytes after its first '?' up to its first '#'
   * after that, or `None` when it has no '?'.
   */
  function QueryPart(uri: seq<byte>): Option<seq<byte>> {
    match CollectMin(Pieces(uri, [QUESTION], 2), 2)
    case None => None
    case Some(parts) =>
      PiecesCount(parts[1], [HASH], 2);
      Some(Pieces(parts[1], [HASH], 2)[0])
  }

  /**
   * One '&'-separated piece as a field: split at its first '='; a piece
   * without '=' is a key with an empty value. Both halves go through
   * `Data::<UriQuery>::try_from`.
   */
  function ParseField(piece: seq<byte>): (r: Result<(seq<byte>, seq<byte>), HttpError>)
    ensures r.Ok? ==> IsQueryText(r.value.0) && IsQueryText(r.value.1)
    ensures r.Ok? ==> piece == PairText(r.value.0, r.value.1) || piece == r.value.0 + [EQUALS]
    ensures r.Err? ==> r.error == InvalidEncoding
  {
    PiecesCount(piece, [EQUALS], 2);
    PiecesJoin(piece, [EQUALS], 2);
    var parts := Pieces(piece, [EQUALS], 2);
    if |parts| == 1 then
      match D.TryFrom(UriQuery, parts[0])
      case Err(e) => Err(e)
      case Ok(key) =>
        match D.TryFrom(UriQuery, [])
        case Err(e) => Err(e)
        case Ok(value) => Ok((key.bytes, value.bytes))
    else
      match D.TryFrom(UriQuery, parts[0])
      case Err(e) => Err(e)
      case Ok(key) =>
        match D.TryFrom(UriQuery, parts[1])
        case Err(e) => Err(e)
        case Ok(value) => Ok((key.bytes, value.bytes))
  }

  /**
   * The map the `for` loop builds from the pieces: fields inserted in order,
   * so a later piece replaces an earlier one with the same key; the first
   * piece that fails stops it.
   */
  function Entries(pieces: seq<seq<byte>>): (r: Result<map<seq<byte>, seq<byte>>, HttpError>)
    ensures r.Ok? <==> forall i | 0 <= i < |pieces| :: ParseField(pieces[i]).Ok?
    ensures r.Ok? ==> QueryString(r.value).Valid()
    ensures r.Err? ==> r.error == InvalidEncoding
  {
    if pieces == [] then Ok(map[])
    else
      var init, last := pieces[..|pieces| - 1], pieces[|pieces| - 1];
      assert pieces == init + [last];
      var prior := Entries(init);
      var field := ParseField(last);
      if prior.Err? then Err(prior.error)
      else if field.Err? then Err(field.error)
      else Ok(prior.value[field.value.0 := field.value.1])
  }

  /** `QueryString::try_from(Data<Uri>)`, as a value. */
  function Parse(uri: seq<byte>): Result<QueryString, HttpError> {
    match QueryPart(uri)
    case None => Ok(QueryString(map[]))
    case Some(part) =>
      if !IsQueryText(part) then Err(InvalidEncoding)
      else
        var trimmed := TrimTrailing(part, AMPERSAND);
        if trimmed == [] then Ok(QueryString(map[]))
        else
          match Entries(Pieces(trimmed, [AMPERSAND], USIZE_MAX))
          case Err(e) => Err(e)
          case Ok(m) => Ok(QueryString(m))
  }

  /** Once a prefix of the pieces fails, the whole loop fails with its error. */
  lemma {:induction false} EntriesStopAtError(pieces: seq<seq<byte>>, n: nat)
    requires n <= |pieces| && Entries(pieces[..n]).Err?
    ensures Entries(pieces) == Entries(pieces[..n])
    decreases |pieces| - n
  {
    if n < |pieces| {
      assert pieces[..n + 1][..n] == pieces[..n];
      EntriesStopAtError(pieces, n + 1);
    } else {
      assert pieces[..n] == pieces;
    }
  }

  /**
   * `try_from`: cut the query out of the URI, validate it, drop its trailing
   * '&'s, then insert one field per '&'-separated piece.
   */
  method TryFromUri(uri: seq<byte>) returns (r: Result<QueryString, HttpError>)
    ensures r == Parse(uri)
  {
    var parts := CollectMin(Pieces(uri, [QUESTION], 2), 2);
    if parts.None? {
      return Ok(QueryString(map[]));
    }
    PiecesCount(parts.value[1], [HASH], 2);
    var part := Pieces(parts.value[1], [HASH], 2)[0];
    var valid := IsValidEscaped(part, QueryChars);
    if !valid {
      return Err(InvalidEncoding);
    }
    part := TrimTrailing(part, AMPERSAND);
    if part == [] {
      return Ok(QueryString(map[]));
    }
    var pieces := Pieces(part, [AMPERSAND], USIZE_MAX);
    var query := map[];
    var i := 0;
    while i < |pieces|
      invariant i <= |pieces|
      invariant Entries(pieces[..i]) == Ok(query)
    {
      var field := ParseField(pieces[i]);
      assert pieces[..i + 1][..i] == pieces[..i];
      if field.Err? {
        EntriesStopAtError(pieces, i + 1);
        return Err(field.error);
      }
      query := query[field.value.0 := field.value.1];
      i := i + 1;
    }
    assert pieces[..i] == pieces;
    r := Ok(QueryString(query));
  }

  // ---------------------------------------------------------------- lemmas

  /** A valid text followed by another valid text is valid. */
  lemma {:induction false} ConcatValid(a: seq<byte>, b: seq<byte>, cs: Charset)
    requires EscapedValid(a, cs) && EscapedValid(b, cs)
    ensures EscapedValid(a + b, cs)
    decreases |a|
  {
    if a != [] {
      var n := if Plain(cs, a[0]) then 1 else 3;
      assert (a + b)[n..] == a[n..] + b;
      ConcatValid(a[n..], b, cs);
    } else {
      assert a + b == b;
    }
  }

  /**
   * Cutting a valid text at a plain byte that is no hex digit leaves two
   * valid texts: no escape can span that byte.
   */
  lemma {:induction false} SplitValid(a: seq<byte>, d: byte, b: seq<byte>, cs: Charset)
    requires Plain(cs, d) && !Ascii.IsHexDigit(d)
    requires EscapedValid(a + [d] + b, cs)
    ensures EscapedValid(a, cs) && EscapedValid(b, cs)
    decreases |a|
  {
    var s := a + [d] + b;
    if a == [] {
      assert s[1..] == b;
    } else if Plain(cs, a[0]) {
      assert s[1..] == a[1..] + [d] + b;
      SplitValid(a[1..], d, b, cs);
    } else {
      assert s[|a|] == d;
      assert s[3..] == a[3..] + [d] + b;
      SplitValid(a[3..], d, b, cs);
    }
  }

  /** Every piece of a valid text split at a plain, non-hex byte is valid. */
  lemma {:induction false} PiecesValid(s: seq<byte>, d: byte, n: nat, cs: Charset)
    requires Plain(cs, d) && !Ascii.IsHexDigit(d)
    requires EscapedValid(s, cs)
    ensures forall k | 0 <= k < |Pieces(s, [d], n)| :: EscapedValid(Pieces(s, [d], n)[k], cs)
    decreases n
  {
    if n >= 2 {
      match Find(s, [d])
      case Some(i) =>
        var rest := s[i + 1..];
        FindSpec(s, [d]);
        MatchesByte(s, i, d);
        assert s == s[..i] + [d] + rest;
        SplitValid(s[..i], d, rest, cs);
        PiecesValid(rest, d, n - 1, cs);
        var ps := Pieces(s, [d], n);
        assert ps[1..] == Pieces(rest, [d], n - 1);
        forall k | 0 <= k < |ps| ensures EscapedValid(ps[k], cs) {
          if k > 0 {
            assert ps[k] == ps[1..][k - 1];
          }
        }
      case None =>
    }
  }

  /** Dropping trailing '&'s keeps a query valid. */
  lemma {:induction false} TrimValid(s: seq<byte>)
    requires IsQueryText(s)
    ensures IsQueryText(TrimTrailing(s, AMPERSAND))
    decreases |s|
  {
    if s != [] && s[|s| - 1] == AMPERSAND {
      var init := s[..|s| - 1];
      assert s == init + [AMPERSAND] + [];
      SplitValid(init, AMPERSAND, [], QueryChars);
      TrimValid(init);
    }
  }

  /** A valid piece always converts to a field. */
  lemma ParseFieldValid(piece: seq<byte>)
    requires IsQueryText(piece)
    ensures ParseField(piece).Ok?
  {
    PiecesValid(piece, EQUALS, 2, QueryChars);
    PiecesCount(piece, [EQUALS], 2);
  }

  /**
   * `try_from` fails exactly when the URI has a query that is not valid
   * `UriQuery` text, and then with `InvalidEncoding`; every map it builds
   * holds only valid keys and values. The conversions of the single pieces
   * never fail once the whole query has been validated.
   */
  lemma ParseErrors(uri: seq<byte>)
    ensures Parse(uri).Err? <==> QueryPart(uri).Some? && !IsQueryText(QueryPart(uri).value)
    ensures Parse(uri).Err? ==> Parse(uri).error == InvalidEncoding
    ensures Parse(uri).Ok? ==> Parse(uri).value.Valid()
  {
    match QueryPart(uri)
    case None =>
    case Some(part) =>
      if IsQueryText(part) {
        var trimmed := TrimTrailing(part, AMPERSAND);
        TrimValid(part);
        PiecesValid(trimmed, AMPERSAND, USIZE_MAX, QueryChars);
        var pieces := Pieces(trimmed, [AMPERSAND], USIZE_MAX);
        forall i | 0 <= i < |pieces| ensures ParseField(pieces[i]).Ok? {
          ParseFieldValid(pieces[i]);
        }
      }
  }

  /** Locating the query: after the first '?', before the next '#', or none without a '?'. */
  lemma QueryPartShape(p: seq<byte>, q: seq<byte>, t: seq<byte>)
    requires Excludes(p, QUESTION) && Excludes(q, HASH)
    ensures QueryPart(p) == None
    ensures QueryPart(p + [QUESTION] + q) == Some(q)
    ensures QueryPart(p + [QUESTION] + q + [HASH] + t) == Some(q)
  {
    FindAfter(p, [QUESTION], q);
    FindAfter(p, [QUESTION], q + [HASH] + t);
    FindAfter(q, [HASH], t);
    assert (p + [QUESTION] + q)[|p| + 1..] == q;
    assert p + [QUESTION] + q + [HASH] + t == p + [QUESTION] + (q + [HASH] + t);
    assert (p + [QUESTION] + (q + [HASH] + t))[|p| + 1..] == q + [HASH] + t;
    assert (q + [HASH] + t)[..|q|] == q;
  }

  /** A text that starts with '?' is a query up to its first '#'. */
  lemma QueryPartAtStart(q: seq<byte>)
    requires Excludes(q, HASH)
    ensures QueryPart([QUESTION] + q) == Some(q)
  {
    QueryPartShape([], q, []);
    assert [] + [QUESTION] + q == [QUESTION] + q;
  }

  /** The '&'-joined text of the fields, key by key in `order`. */
  function Pairs(fields: map<seq<byte>, seq<byte>>, order: seq<seq<byte>>): (r: seq<seq<byte>>)
    requires forall k | k in order :: k in fields
    ensures |r| == |order|
    ensures forall i | 0 <= i < |order| :: r[i] == PairText(order[i], fields[order[i]])
  {
    if order == [] then []
    else
      var key := order[|order| - 1];
      Pairs(fields, order[..|order| - 1]) + [PairText(key, fields[key])]
  }

  /** What `to_string` writes before trimming is the joined fields and one trailing '&'. */
  lemma {:induction false} FieldsBytesJoin(fields: map<seq<byte>, seq<byte>>, order: seq<seq<byte>>)
    requires forall k | k in order :: k in fields
    requires order != []
    ensures FieldsBytes(fields, order) == Join(Pairs(fields, order), [AMPERSAND]) + [AMPERSAND]
    decreases |order|
  {
    var init := order[..|order| - 1];
    var key := order[|order| - 1];
    if init != [] {
      FieldsBytesJoin(fields, init);
      JoinAppend(Pairs(fields, init), PairText(key, fields[key]), [AMPERSAND]);
    }
  }

  /** A join of valid parts with a plain separator is valid. */
  lemma {:induction false} JoinValid(parts: seq<seq<byte>>, d: byte, cs: Charset)
    requires Plain(cs, d)
    requires forall i | 0 <= i < |parts| :: EscapedValid(parts[i], cs)
    ensures EscapedValid(Join(parts, [d]), cs)
    decreases |parts|
  {
    if |parts| > 1 {
      JoinValid(parts[1..], d, cs);
      assert EscapedValid([d], cs) by {
        assert [d][1..] == [];
      }
      ConcatValid([d], Join(parts[1..], [d]), cs);
      ConcatValid(parts[0], [d] + Join(parts[1..], [d]), cs);
      assert parts[0] + [d] + Join(parts[1..], [d]) == parts[0] + ([d] + Join(parts[1..], [d]));
    }
  }

  /** A field's text reads back as that field. */
  lemma PairParses(key: seq<byte>, value: seq<byte>)
    requires IsQueryText(key) && IsQueryText(value) && |key| > 0 && Excludes(key, EQUALS)
    ensures ParseField(PairText(key, value)) == Ok((key, value))
  {
    if value == [] {
      FindAfter(key, [EQUALS], []);
    } else {
      FindAfter(key, [EQUALS], value);
      assert (key + [EQUALS] + value)[|key| + 1..] == value;
      assert (key + [EQUALS] + value)[..|key|] == key;
    }
  }

  /** The map on the keys of `order` is the map on all but its last key, updated with the last. */
  lemma MapOfOrderStep(fields: map<seq<byte>, seq<byte>>, order: seq<seq<byte>>)
    requires order != [] && forall k | k in order :: k in fields
    ensures forall k | k in order[..|order| - 1] :: k in fields
    ensures (map k | k in order[..|order| - 1] :: fields[k])[order[|order| - 1] := fields[order[|order| - 1]]]
      == map k | k in order :: fields[k]
  {
    var init := order[..|order| - 1];
    assert forall k | k in init :: k in order;
    forall k | k in order && k != order[|order| - 1] ensures k in init {
      var i :| 0 <= i < |order| && order[i] == k;
      assert init[i] == k;
    }
  }

  /** One more piece that converts to a field inserts that field into the map. */
  lemma EntriesStep(pieces: seq<seq<byte>>, last: seq<byte>, m: map<seq<byte>, seq<byte>>, key: seq<byte>, value: seq<byte>)
    requires Entries(pieces) == Ok(m) && ParseField(last) == Ok((key, value))
    ensures Entries(pieces + [last]) == Ok(m[key := value])
  {
    assert (pieces + [last])[..|pieces|] == pieces;
  }

  /** Inserting the fields of `order` one by one rebuilds the map on those keys. */
  lemma {:induction false} EntriesOfPairs(fields: map<seq<byte>, seq<byte>>, order: seq<seq<byte>>)
    requires forall k | k in order :: k in fields
    requires forall k | k in order :: IsQueryText(k) && IsQueryText(fields[k]) && |k| > 0 && Excludes(k, EQUALS)
    ensures Entries(Pairs(fields, order)) == Ok(map k | k in order :: fields[k])
    decreases |order|
  {
    if order != [] {
      var init := order[..|order| - 1];
      var key := order[|order| - 1];
      assert forall k | k in init :: k in order;
      assert Pairs(fields, order) == Pairs(fields, init) + [PairText(key, fields[key])];
      EntriesOfPairs(fields, init);
      assert key in order;
      PairParses(key, fields[key]);
      EntriesStep(Pairs(fields, init), PairText(key, fields[key]), map k | k in init :: fields[k], key, fields[key]);
      MapOfOrderStep(fields, order);
    }
  }

  /** The text of a field that satisfies the round-trip conditions is valid, non-empty and holds no '&'. */
  lemma PairTextValid(key: seq<byte>, value: seq<byte>)
    requires IsQueryText(key) && IsQueryText(value) && |key| > 0
    requires Excludes(key, AMPERSAND) && Excludes(value, AMPERSAND)
    ensures IsQueryText(PairText(key, value)) && Excludes(PairText(key, value), AMPERSAND)
    ensures |PairText(key, value)| > 0
  {
    if value != [] {
      var tail := [EQUALS] + value;
      assert EscapedValid(tail, QueryChars) by {
        assert tail[1..] == value;
      }
      ConcatValid(key, tail, QueryChars);
      assert key + [EQUALS] + value == key + tail;
    }
  }

  /** The texts of fields that satisfy the round-trip conditions are valid, non-empty and hold no '&'. */
  lemma PairsText(q: QueryString, order: seq<seq<byte>>)
    requires q.Valid() && forall k | k in order :: k in q.fields
    requires forall k | k in q.fields :: |k| > 0 && Excludes(k, AMPERSAND) && Excludes(q.fields[k], AMPERSAND)
    ensures forall i | 0 <= i < |order| :: IsQueryText(Pairs(q.fields, order)[i])
    ensures forall i | 0 <= i < |order| :: Excludes(Pairs(q.fields, order)[i], AMPERSAND)
    ensures forall i | 0 <= i < |order| :: |Pairs(q.fields, order)[i]| > 0
  {
    var ps := Pairs(q.fields, order);
    forall i | 0 <= i < |order| ensures IsQueryText(ps[i]) && Excludes(ps[i], AMPERSAND) && |ps[i]| > 0 {
      var k := order[i];
      assert k in order;
      PairTextValid(k, q.fields[k]);
    }
  }

  /** Trimming the '&'s after a join of non-empty parts without '&' removes only the last one. */
  lemma TrimJoined(parts: seq<seq<byte>>)
    requires parts != [] && |parts[|parts| - 1]| > 0 && Excludes(parts[|parts| - 1], AMPERSAND)
    ensures TrimTrailing([QUESTION] + Join(parts, [AMPERSAND]) + [AMPERSAND], AMPERSAND)
      == [QUESTION] + Join(parts, [AMPERSAND])
  {
    var joined := Join(parts, [AMPERSAND]);
    JoinLast(parts, [AMPERSAND]);
    var written := [QUESTION] + joined + [AMPERSAND];
    var t := written[..|written| - 1];
    assert t == [QUESTION] + joined;
    var last := parts[|parts| - 1];
    assert t[|t| - 1] == last[|last| - 1] != AMPERSAND;
    assert TrimTrailing(t, AMPERSAND) == t;
  }

  /** Written out, the fields are '?' and their texts joined by '&'. */
  lemma ToStringJoined(q: QueryString, order: seq<seq<byte>>)
    requires order != [] && forall k | k in order :: k in q.fields
    requires |Pairs(q.fields, order)[|order| - 1]| > 0
    requires Excludes(Pairs(q.fields, order)[|order| - 1], AMPERSAND)
    ensures ToString(q, order) == [QUESTION] + Join(Pairs(q.fields, order), [AMPERSAND])
  {
    var joined := Join(Pairs(q.fields, order), [AMPERSAND]);
    FieldsBytesJoin(q.fields, order);
    assert [QUESTION] + FieldsBytes(q.fields, order) == [QUESTION] + joined + [AMPERSAND];
    TrimJoined(Pairs(q.fields, order));
  }

  /** Splitting '&'-joined texts without '&' gives the texts back. */
  lemma PiecesOfAmpersandJoin(ps: seq<seq<byte>>)
    requires 0 < |ps| <= USIZE_MAX
    requires forall i | 0 <= i < |ps| :: Excludes(ps[i], AMPERSAND)
    ensures Pieces(Join(ps, [AMPERSAND]), [AMPERSAND], USIZE_MAX) == ps
  {
    PiecesOfJoin(ps, [AMPERSAND], USIZE_MAX);
  }

  /** '?' and the joined texts of the fields parse back as the map on the keys of `order`. */
  lemma ParseJoined(fields: map<seq<byte>, seq<byte>>, order: seq<seq<byte>>)
    requires order != [] && |order| < USIZE_MAX && forall k | k in order :: k in fields
    requires forall k | k in order :: IsQueryText(k) && IsQueryText(fields[k]) && |k| > 0 && Excludes(k, EQUALS)
    requires forall i | 0 <= i < |order| :: IsQueryText(Pairs(fields, order)[i])
    requires forall i | 0 <= i < |order| :: Excludes(Pairs(fields, order)[i], AMPERSAND)
    requires forall i | 0 <= i < |order| :: |Pairs(fields, order)[i]| > 0
    ensures IsQueryText(Join(Pairs(fields, order), [AMPERSAND]))
    ensures Parse([QUESTION] + Join(Pairs(fields, order), [AMPERSAND])) == Ok(QueryString(map k | k in order :: fields[k]))
  {
    var ps := Pairs(fields, order);
    var joined := Join(ps, [AMPERSAND]);
    JoinValid(ps, AMPERSAND, QueryChars);
    QueryExcludesDelimiters(joined);
    QueryPartAtStart(joined);
    JoinLast(ps, [AMPERSAND]);
    var last := ps[|ps| - 1];
    assert joined[|joined| - 1] == last[|last| - 1] != AMPERSAND;
    assert TrimTrailing(joined, AMPERSAND) == joined;
    PiecesOfAmpersandJoin(ps);
    EntriesOfPairs(fields, order);
  }

  /**
   * `to_string` then `try_from` gives back the map, whatever order the
   * `HashMap` iterates in, and what `to_string` writes is a valid `Data<Uri>`.
   * This needs keys that are non-empty (an empty key with an empty value
   * would be trimmed away as an '&') and keys without '=' and fields without
   * '&', which the writer does not escape.
   */
  lemma QueryStringRoundTrip(q: QueryString, order: seq<seq<byte>>)
    requires q.Valid() && IsOrder(q.fields, order) && |order| < USIZE_MAX
    requires forall k | k in q.fields :: |k| > 0 && Excludes(k, EQUALS) && Excludes(k, AMPERSAND)
    requires forall k | k in q.fields :: Excludes(q.fields[k], AMPERSAND)
    ensures IsValid(Uri, ToString(q, order))
    ensures Parse(ToString(q, order)) == Ok(q)
  {
    var fields := q.fields;
    assert fields == map k | k in order :: fields[k];
    var text: seq<byte>;
    if order == [] {
      text := [];
      assert ToString(q, order) == [QUESTION] + text;
      QueryPartAtStart(text);
    } else {
      PairsText(q, order);
      text := Join(Pairs(fields, order), [AMPERSAND]);
      ToStringJoined(q, order);
      ParseJoined(fields, order);
    }
    QueryIsUri(text);
    assert EscapedValid([QUESTION] + text, UriChars) by {
      assert ([QUESTION] + text)[1..] == text;
    }
  }
}
