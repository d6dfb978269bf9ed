/**
 * `src/request_target.rs`: the request target of a request line (section
 * 5.3 of RFC 7230) in its asterisk form or its absolute-path form, the
 * latter as path components and a query string.
 */
module RequestTarget {
  import opened Wrappers
  import opened Bytes
  import opened IoError
  import opened Io
  import opened SortedMap
  import H = Helpers

  const SLASH: byte := '/' as int
  const QUESTION: byte := '?' as int
  const AMPERSAND: byte := '&' as int
  const EQUALS: byte := '=' as int
  const ASTERISK: byte := '*' as int

  /** `QueryString`: a `BTreeMap` from keys to values. */
  datatype QueryString = QueryString(fields: Entries) {
    /** `get`: the value stored for `name`, if any. */
    function Get(name: seq<byte>): (r: Option<seq<byte>>)
      ensures r.None? <==> forall i | 0 <= i < |fields| :: fields[i].0 != name
      ensures r.Some? ==> exists i | 0 <= i < |fields| :: fields[i] == (name, r.value)
    {
      SortedMap.Get(fields, name)
    }

    /** `set`: stores `value` for `name`, replacing any earlier value; the keys stay ascending. */
    function Set(name: seq<byte>, value: seq<byte>): (r: QueryString)
      ensures Sorted(fields) ==> Sorted(r.fields) && r.Get(name) == Some(value)
    {
      var r := QueryString(Insert(fields, name, value));
      if Sorted(fields) then InsertSpec(fields, name, value); r else r
    }
  }

  /** `set` then `get` returns the value set, and no other key changes. */
  lemma SetGet(q: QueryString, name: seq<byte>, value: seq<byte>, other: seq<byte>)
    requires Sorted(q.fields)
    ensures Sorted(q.Set(name, value).fields)
    ensures q.Set(name, value).Get(name) == Some(value)
    ensures other != name ==> q.Set(name, value).Get(other) == q.Get(other)
  {
    InsertSpec(q.fields, name, value);
  }

  datatype RequestTarget =
    | Wildcard
    | Absolute(path: seq<seq<byte>>, query: QueryString)

  // ---------------------------------------------------------------- path

  /** The state of the path reader: the components pushed, and the one being collected. */
  datatype PathScan = PathScan(components: seq<seq<byte>>, pending: seq<byte>)

  /**
   * The path reader after the bytes `s`: a '/' pushes the pending component
   * unless it is empty, any other byte extends it.
   */
  function ScanPath(s: seq<byte>): PathScan {
    if s == [] then PathScan([], [])
    else
      var p := ScanPath(s[..|s| - 1]);
      var b := s[|s| - 1];
      if b != SLASH then PathScan(p.components, p.pending + [b])
      else if p.pending == [] then p
      else PathScan(p.components + [p.pending], [])
  }

  /** A path component as the reader produces it: non-empty and without '/'. */
  predicate IsComponent(c: seq<byte>) {
    c != [] && Excludes(c, SLASH)
  }

  /** Read components are never empty and never contain '/'; neither does the pending one. */
  lemma {:induction false} ScanPathShape(s: seq<byte>)
    ensures forall i | 0 <= i < |ScanPath(s).components| :: IsComponent(ScanPath(s).components[i])
    ensures Excludes(ScanPath(s).pending, SLASH)
  {
    if s != [] {
      ScanPathShape(s[..|s| - 1]);
    }
  }

  /**
   * `RequestTargetPath::read`: reads the source to its end, one byte at a
   * time, and returns the components pushed. The component after the last
   * '/' is never pushed.
   */
  method ReadPath(src: Source) returns (r: Result<seq<seq<byte>>, H.Error>)
    modifies src
    ensures src.failure.None? ==> r == Ok(ScanPath(old(src.input)).components) && src.input == []
    ensures src.failure.Some? ==> r == Err(H.InOut(src.failure.value))
  {
    ghost var input0 := src.input;
    var components: seq<seq<byte>> := [];
    var component: seq<byte> := [];
    var i := 0;
    while true
      invariant i <= |input0| && src.input == input0[i..]
      invariant PathScan(components, component) == ScanPath(input0[..i])
      decreases |src.input|
    {
      var peek := H.PeekOne(src);
      if peek.Err? {
        return Err(peek.error);
      }
      if peek.value.None? {
        break;
      }
      var buf, e := src.ReadExact(1);
      if e.Err? {
        // `peek_one` saw a byte, so `read_exact` of one byte cannot fail
        assert false;
      }
      var next := buf[0];
      assert input0[..i + 1][..i] == input0[..i] && input0[..i + 1][i] == next;
      if next == SLASH && component == [] {
      } else if next == SLASH {
        components := components + [component];
        component := [];
      } else {
        component := component + [next];
      }
      i := i + 1;
    }
    assert input0[..i] == input0;
    r := Ok(components);
  }

  /** '/' and the component, for each component. */
  function Slashed(path: seq<seq<byte>>): seq<byte> {
    if path == [] then [] else Slashed(path[..|path| - 1]) + [SLASH] + path[|path| - 1]
  }

  /** What `RequestTargetPath::write_all` writes: "/" for no components. */
  function PathBytes(path: seq<seq<byte>>): seq<byte> {
    if path == [] then [SLASH] else Slashed(path)
  }

  /** `RequestTargetPath::write_all` */
  method WritePath(path: seq<seq<byte>>, sink: Sink) returns (r: Result<(), H.Error>)
    modifies sink
    ensures sink.failure.None? ==> r.Ok? && sink.output == old(sink.output) + PathBytes(path)
    ensures sink.failure.Some? ==> r == Err(H.InOut(sink.failure.value)) && sink.output == old(sink.output)
  {
    if path == [] {
      var w := sink.WriteAll([SLASH]);
      if w.Err? {
        return Err(H.InOut(w.error));
      }
      return Ok(());
    }
    var i := 0;
    while i < |path|
      invariant i <= |path| && sink.output == old(sink.output) + Slashed(path[..i])
      invariant sink.failure.Some? ==> i == 0
    {
      var w := sink.WriteAll([SLASH]);
      if w.Err? {
        return Err(H.InOut(w.error));
      }
      w := sink.WriteAll(path[i]);
      assert path[..i + 1][..i] == path[..i];
      i := i + 1;
    }
    assert path[..i] == path;
    r := Ok(());
  }

  /** Reading a path after more bytes without '/' extends the pending component. */
  lemma {:induction false} ScanWord(s: seq<byte>, c: seq<byte>)
    requires Excludes(c, SLASH)
    ensures ScanPath(s + c) == PathScan(ScanPath(s).components, ScanPath(s).pending + c)
    decreases |c|
  {
    if c == [] {
      assert s + c == s;
    } else {
      var c' := c[..|c| - 1];
      assert (s + c)[..|s + c| - 1] == s + c';
      ScanWord(s, c');
      assert ScanPath(s).pending + c' + [c[|c| - 1]] == ScanPath(s).pending + c;
    }
  }

  /** The reader after a written non-empty path: all but the last component pushed, the last pending. */
  lemma {:induction false} ScanSlashed(path: seq<seq<byte>>)
    requires path != [] && forall i | 0 <= i < |path| :: IsComponent(path[i])
    ensures ScanPath(Slashed(path)) == PathScan(path[..|path| - 1], path[|path| - 1])
    decreases |path|
  {
    var init := path[..|path| - 1];
    var x := Slashed(init);
    ScanWord(x + [SLASH], path[|path| - 1]);
    assert (x + [SLASH])[..|x + [SLASH]| - 1] == x;
    if init != [] {
      ScanSlashed(init);
      assert init[..|init| - 1] + [init[|init| - 1]] == init;
    }
  }

  /**
   * As written, reading back a written path loses its last component: "/a"
   * reads as no components, "/a/b" as ["a"].
   */
  lemma PathReadDropsLast(path: seq<seq<byte>>)
    requires path != [] && forall i | 0 <= i < |path| :: IsComponent(path[i])
    ensures ScanPath(PathBytes(path)).components == path[..|path| - 1] != path
  {
    ScanSlashed(path);
  }

  /** The path reader as documented: the component still pending at the end is pushed too. */
  function ReadPathCorrected(s: seq<byte>): seq<seq<byte>> {
    var p := ScanPath(s);
    if p.pending == [] then p.components else p.components + [p.pending]
  }

  /** The documented reader gives back every written path. */
  lemma PathRoundTrip(path: seq<seq<byte>>)
    requires forall i | 0 <= i < |path| :: IsComponent(path[i])
    ensures ReadPathCorrected(PathBytes(path)) == path
  {
    if path == [] {
      assert ScanPath([SLASH]) == PathScan([], []) by {
        assert [SLASH][..0] == [];
      }
    } else {
      ScanSlashed(path);
    }
  }

  // ---------------------------------------------------------------- query

  /** A pair split at its first '=': the key before it, the value after; no '=' means an empty value. */
  function SplitPair(pair: seq<byte>): (seq<byte>, seq<byte>) {
    match FirstEnd(pair, [EQUALS], 0)
    case Some(m) => (pair[..m - 1], pair[m..])
    case None => (pair, [])
  }

  /**
   * `QueryString::read` from `s` onwards, with the fields read so far: the
   * pairs between '&' in order, pairs with an empty key skipped, a later
   * key replacing an earlier one.
   */
  function ReadQueryFrom(s: seq<byte>, fields: Entries): Entries
    decreases |s|
  {
    if s == [] then fields
    else
      var m := FirstEnd(s, [AMPERSAND], 0);
      var pair := if m.Some? then s[..m.value - 1] else s;
      var rest := if m.Some? then s[m.value..] else [];
      var (key, value) := SplitPair(pair);
      ReadQueryFrom(rest, if key == [] then fields else Insert(fields, key, value))
  }

  /** Read fields are sorted by key and have no empty key. */
  lemma {:induction false} ReadQuerySorted(s: seq<byte>, fields: Entries)
    requires Sorted(fields) && forall i | 0 <= i < |fields| :: fields[i].0 != []
    ensures Sorted(ReadQueryFrom(s, fields))
    ensures forall i | 0 <= i < |ReadQueryFrom(s, fields)| :: ReadQueryFrom(s, fields)[i].0 != []
    decreases |s|
  {
    if s != [] {
      var m := FirstEnd(s, [AMPERSAND], 0);
      var pair := if m.Some? then s[..m.value - 1] else s;
      var rest := if m.Some? then s[m.value..] else [];
      var (key, value) := SplitPair(pair);
      if key == [] {
        ReadQuerySorted(rest, fields);
      } else {
        var f := Insert(fields, key, value);
        InsertSpec(fields, key, value);
        forall i | 0 <= i < |f| ensures f[i].0 != [] {
          InsertedKeys(fields, key, value, i);
        }
        ReadQuerySorted(rest, f);
      }
    }
  }

  /** One pair of `QueryString::read`: read up to '&', split at '=', insert unless the key is empty. */
  method ReadPair(src: Source, fields: Entries) returns (r: Result<Entries, H.Error>)
    requires src.input != []
    modifies src
    ensures var s := old(src.input);
      var m := FirstEnd(s, [AMPERSAND], 0);
      var (key, value) := SplitPair(if m.Some? then s[..m.value - 1] else s);
      && (m.Some? ==> src.input == s[m.value..] && r == Ok(if key == [] then fields else Insert(fields, key, value)))
      && (m.None? ==> src.input == [] && r == if src.failure.Some? then Err(H.InOut(src.failure.value))
                                              else Ok(if key == [] then fields else Insert(fields, key, value)))
  {
    var pair := H.ReadWord(src, [AMPERSAND], [H.Trim]);
    if pair.Err? {
      return Err(pair.error);
    }
    var memory := new Source(pair.value, None);
    var key := H.ReadWord(memory, [EQUALS], [H.Trim]);
    if key.Err? {
      // an in-memory source never fails
      assert false;
    }
    if key.value == [] {
      return Ok(fields);
    }
    var value := H.ReadAll(memory, []);
    if value.Err? {
      assert false;
    }
    r := Ok(Insert(fields, key.value, value.value));
  }

  /** `QueryString::read`: pairs up to the end of the source. */
  method ReadQuery(src: Source) returns (r: Result<QueryString, H.Error>)
    modifies src
    ensures src.failure.None? ==> r == Ok(QueryString(ReadQueryFrom(old(src.input), [])))
    ensures src.failure.Some? ==> r == Err(H.InOut(src.failure.value))
  {
    ghost var input0 := src.input;
    var fields: Entries := [];
    while true
      invariant ReadQueryFrom(input0, []) == ReadQueryFrom(src.input, fields)
      decreases |src.input|
    {
      var peek := H.PeekOne(src);
      if peek.Err? {
        return Err(peek.error);
      }
      if peek.value.None? {
        break;
      }
      var next := ReadPair(src, fields);
      if next.Err? {
        return Err(next.error);
      }
      fields := next.value;
    }
    r := Ok(QueryString(fields));
  }

  /** A pair as written: the key, then "=value" only for a non-empty value. */
  function PairBytes(key: seq<byte>, value: seq<byte>): seq<byte> {
    key + if value == [] then [] else [EQUALS] + value
  }

  /** What `QueryString::write_all` writes for `fields`: '?' before the first pair, '&' before the others. */
  function QueryBytes(fields: Entries, first: bool): seq<byte> {
    if fields == [] then []
    else [if first then QUESTION else AMPERSAND] + PairBytes(fields[0].0, fields[0].1) + QueryBytes(fields[1..], false)
  }

  /** One pair of `QueryString::write_all`: its delimiter, its key and "=value" unless the value is empty. */
  method WritePair(first: bool, key: seq<byte>, value: seq<byte>, sink: Sink) returns (r: Result<(), H.Error>)
    modifies sink
    ensures sink.failure.None? ==> r.Ok? && sink.output == old(sink.output) + [if first then QUESTION else AMPERSAND] + PairBytes(key, value)
    ensures sink.failure.Some? ==> r == Err(H.InOut(sink.failure.value)) && sink.output == old(sink.output)
  {
    var w := sink.WriteAll(if first then [QUESTION] else [AMPERSAND]);
    if w.Err? {
      return Err(H.InOut(w.error));
    }
    w := sink.WriteAll(key);
    if value != [] {
      w := sink.WriteAll([EQUALS]);
      w := sink.WriteAll(value);
    }
    r := Ok(());
  }

  /** `QueryString::write_all`: the pairs in ascending key order. */
  method WriteQuery(q: QueryString, sink: Sink) returns (r: Result<(), H.Error>)
    modifies sink
    ensures sink.failure.None? ==> r.Ok? && sink.output == old(sink.output) + QueryBytes(q.fields, true)
    ensures sink.failure.Some? ==> sink.output == old(sink.output) && (r.Ok? <==> q.fields == [])
  {
    var i := 0;
    while i < |q.fields|
      invariant i <= |q.fields|
      invariant old(sink.output) + QueryBytes(q.fields, true) == sink.output + QueryBytes(q.fields[i..], i == 0)
      invariant sink.failure.Some? ==> i == 0 && sink.output == old(sink.output)
    {
      ghost var before := sink.output;
      var (key, value) := q.fields[i];
      r := WritePair(i == 0, key, value, sink);
      if r.Err? {
        return;
      }
      assert q.fields[i..][1..] == q.fields[i + 1..];
      i := i + 1;
    }
    assert q.fields[i..] == [];
    r := Ok(());
  }

  /** A field that survives writing and reading: key without '&' and '=', value without '&'. */
  predicate Writable(key: seq<byte>, value: seq<byte>) {
    key != [] && Excludes(key, AMPERSAND) && Excludes(key, EQUALS) && Excludes(value, AMPERSAND)
  }

  /** Splitting a written pair gives back its key and value. */
  lemma SplitPairBytes(key: seq<byte>, value: seq<byte>)
    requires Writable(key, value)
    ensures SplitPair(PairBytes(key, value)) == (key, value)
    ensures Excludes(PairBytes(key, value), AMPERSAND)
  {
    if value == [] {
      assert PairBytes(key, value) == key;
      FirstEndByte(key, EQUALS, []);
    } else {
      FirstEndByte(key, EQUALS, value);
      assert PairBytes(key, value) == key + [EQUALS] + value;
    }
  }

  /** A pair without '&' and with a non-empty key is read and inserted, and reading goes on after the '&' that ends it. */
  lemma ReadQueryPair(p: seq<byte>, rest: seq<byte>, fields: Entries)
    requires p != [] && Excludes(p, AMPERSAND) && SplitPair(p).0 != []
    ensures ReadQueryFrom(p, fields) == Insert(fields, SplitPair(p).0, SplitPair(p).1)
    ensures ReadQueryFrom(p + [AMPERSAND] + rest, fields) == ReadQueryFrom(rest, Insert(fields, SplitPair(p).0, SplitPair(p).1))
  {
    FirstEndByte(p, AMPERSAND, rest);
    var s := p + [AMPERSAND] + rest;
    assert s[..|p|] == p;
    assert s[|p| + 1..] == rest;
  }

  /** Reading what was written from the `k`-th pair on, after the fields before it, gives all the fields. */
  lemma {:induction false} QueryRoundTripFrom(fields: Entries, k: nat)
    requires k < |fields| && Sorted(fields)
    requires forall i | 0 <= i < |fields| :: Writable(fields[i].0, fields[i].1)
    ensures ReadQueryFrom(PairBytes(fields[k].0, fields[k].1) + QueryBytes(fields[k + 1..], false), fields[..k]) == fields
    decreases |fields| - k
  {
    var (key, value) := fields[k];
    var p := PairBytes(key, value);
    SplitPairBytes(key, value);
    assert fields[..k] + [fields[k]] == fields[..k + 1];
    InsertAbove(fields[..k], key, value);
    if k + 1 == |fields| {
      assert QueryBytes(fields[k + 1..], false) == [];
      assert p + [] == p;
      ReadQueryPair(p, [], fields[..k]);
      assert fields[..k + 1] == fields;
    } else {
      var rest := PairBytes(fields[k + 1].0, fields[k + 1].1) + QueryBytes(fields[k + 2..], false);
      assert fields[k + 1..][1..] == fields[k + 2..];
      assert p + QueryBytes(fields[k + 1..], false) == p + [AMPERSAND] + rest;
      ReadQueryPair(p, rest, fields[..k]);
      QueryRoundTripFrom(fields, k + 1);
    }
  }

  /**
   * `write_all` writes nothing for an empty map and otherwise a '?' followed by
   * the first pair and then '&' before each further pair.
   */
  lemma QueryBytesShape(fields: Entries)
    ensures fields == [] ==> QueryBytes(fields, true) == []
    ensures fields != [] ==>
      QueryBytes(fields, true) == [QUESTION] + PairBytes(fields[0].0, fields[0].1) + QueryBytes(fields[1..], false)
  {
  }

  /**
   * Every non-empty sorted map of writable fields reads back from what
   * `write_all` writes after its '?' (see `QueryBytesShape`).
   */
  lemma QueryRoundTrip(fields: Entries)
    requires Sorted(fields) && forall i | 0 <= i < |fields| :: Writable(fields[i].0, fields[i].1)
    requires fields != []
    ensures ReadQueryFrom(PairBytes(fields[0].0, fields[0].1) + QueryBytes(fields[1..], false), []) == fields
  {
    QueryRoundTripFrom(fields, 0);
    assert fields[..0] == [];
  }

  // ---------------------------------------------------------------- target

  /**
   * `RequestTarget::read` from an in-memory text: a leading '/' gives the
   * path up to the first '?' and the query after it, a leading '*' the
   * wildcard; anything else, the empty text too, is an invalid-input error.
   */
  function ParseTarget(s: seq<byte>): Result<RequestTarget, H.Error> {
    if s == [] then Err(H.InOut(InvalidInput))
    else if s[0] == SLASH then
      var m := FirstEnd(s, [QUESTION], 0);
      var path := if m.Some? then s[..m.value - 1] else s;
      var query := if m.Some? then s[m.value..] else [];
      Ok(Absolute(ScanPath(path).components, QueryString(ReadQueryFrom(query, []))))
    else if s[0] == ASTERISK then Ok(Wildcard)
    else Err(H.InOut(InvalidInput))
  }

  /**
   * `RequestTarget::read`. A failing source fails the absolute form, which
   * reads to the end; the wildcard consumes nothing.
   */
  method ReadTarget(src: Source) returns (r: Result<RequestTarget, H.Error>)
    modifies src
    ensures src.failure.None? ==> r == ParseTarget(old(src.input))
    ensures src.failure.Some? && (old(src.input) == [] || old(src.input)[0] == SLASH) ==>
      r == Err(H.InOut(src.failure.value))
    ensures src.failure.Some? && old(src.input) != [] && old(src.input)[0] != SLASH ==>
      r == ParseTarget(old(src.input))
    ensures r == Ok(Wildcard) ==> src.input == old(src.input)
  {
    ghost var input0 := src.input;
    var peek := H.PeekOne(src);
    if peek.Err? {
      return Err(peek.error);
    }
    if peek.value == Some(SLASH) {
      var path := H.ReadWord(src, [QUESTION], [H.Trim]);
      if path.Err? {
        return Err(path.error);
      }
      var query := H.ReadAll(src, []);
      if query.Err? {
        return Err(query.error);
      }
      var pathSource := new Source(path.value, None);
      var components := ReadPath(pathSource);
      var querySource := new Source(query.value, None);
      var fields := ReadQuery(querySource);
      return Ok(Absolute(components.value, fields.value));
    }
    if peek.value == Some(ASTERISK) {
      return Ok(Wildcard);
    }
    r := Err(H.InOut(InvalidInput));
  }

  /** What `RequestTarget::write_all` writes. */
  function TargetBytes(t: RequestTarget): seq<byte> {
    match t
    case Wildcard => [ASTERISK]
    case Absolute(path, query) => PathBytes(path) + QueryBytes(query.fields, true)
  }

  /** `RequestTarget::write_all` */
  method WriteTarget(t: RequestTarget, sink: Sink) returns (r: Result<(), H.Error>)
    modifies sink
    ensures sink.failure.None? ==> r.Ok? && sink.output == old(sink.output) + TargetBytes(t)
    ensures sink.failure.Some? ==> r == Err(H.InOut(sink.failure.value)) && sink.output == old(sink.output)
  {
    match t
    case Wildcard =>
      var w := sink.WriteAll([ASTERISK]);
      if w.Err? {
        return Err(H.InOut(w.error));
      }
      r := Ok(());
    case Absolute(path, query) =>
      r := WritePath(path, sink);
      if r.Err? {
        return;
      }
      r := WriteQuery(query, sink);
  }

  /** The wildcard reads back; a written absolute target starts with '/', so it reads as the absolute form. */
  lemma TargetForm(t: RequestTarget)
    ensures TargetBytes(t)[0] == (if t.Wildcard? then ASTERISK else SLASH)
    ensures t.Wildcard? ==> ParseTarget(TargetBytes(t)) == Ok(Wildcard)
    ensures t.Absolute? ==> ParseTarget(TargetBytes(t)).Ok? && ParseTarget(TargetBytes(t)).value.Absolute?
  {
    if t.Absolute? && t.path != [] {
      SlashedStart(t.path);
    }
  }

  lemma {:induction false} SlashedStart(path: seq<seq<byte>>)
    requires path != []
    ensures Slashed(path)[0] == SLASH
  {
    if |path| > 1 {
      SlashedStart(path[..|path| - 1]);
    }
  }
}
