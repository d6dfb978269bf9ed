/**
 * `src/helpers/slice_ext.rs`: splitting a slice at a separator pattern with a
 * bounded number of pieces (`Splitter`), and trimming ASCII whitespace.
 */
module SliceExt {
  import opened Wrappers
  import opened Bytes
  import opened Ascii

  /** `usize::max_value()` on a 64-bit target: the piece bound of `split_pat`. */
  const USIZE_MAX: nat := 0xFFFF_FFFF_FFFF_FFFF

  /**
   * Every piece a splitter over `data` still yields when it may yield
   * `remaining` more: the slice before the first occurrence of `pat` (which
   * is skipped) and so on, the last allowed piece being the unsplit rest.
   */
  function Pieces<T(==)>(data: seq<T>, pat: seq<T>, remaining: nat): seq<seq<T>>
    decreases remaining
  {
    if remaining == 0 then []
    else if remaining == 1 then [data]
    else match Find(data, pat)
      case Some(i) => [data[..i]] + Pieces(data[i + |pat|..], pat, remaining - 1)
      case None => [data]
  }

  /** `Splitter`: an iterator over the pieces of `data`. */
  class Splitter<T(==)> {
    var data: seq<T>
    const pat: seq<T>
    var remaining: nat

    /** The pieces still to come. */
    ghost function Rest(): seq<seq<T>>
      reads this
    {
      Pieces(data, pat, remaining)
    }

    /** `splitn_pat(n, pat)`: at most `n` pieces. */
    constructor SplitN(data: seq<T>, n: nat, pat: seq<T>)
      ensures this.data == data && this.pat == pat && remaining == n
      ensures Rest() == Pieces(data, pat, n)
    {
      this.data := data;
      this.pat := pat;
      remaining := n;
    }

    /** `split_pat(pat)`: `splitn_pat` with no practical bound. */
    constructor Split(data: seq<T>, pat: seq<T>)
      ensures this.data == data && this.pat == pat && remaining == USIZE_MAX
      ensures Rest() == Pieces(data, pat, USIZE_MAX)
    {
      this.data := data;
      this.pat := pat;
      remaining := USIZE_MAX;
    }

    /** `next`: the first of the pieces still to come, which are then one fewer. */
    method Next() returns (r: Option<seq<T>>)
      modifies this
      ensures r.None? <==> old(Rest()) == []
      ensures r.Some? ==> old(Rest()) == [r.value] + Rest()
      ensures r.None? ==> Rest() == []
    {
      if remaining == 0 {
        return None;
      }
      if remaining == 1 {
        r := Some(data);
        remaining := 0;
        return;
      }
      var next := Find(data, pat);
      match next {
        case Some(i) =>
          r := Some(data[..i]);
          data := data[i + |pat|..];
          remaining := remaining - 1;
        case None =>
          r := Some(data);
          remaining := 0;
      }
    }
  }

  /** With two or more pieces allowed, a splitter cuts at the first occurrence. */
  lemma PiecesStep<T>(data: seq<T>, pat: seq<T>, n: nat, i: nat)
    requires n >= 2 && Find(data, pat) == Some(i)
    ensures Pieces(data, pat, n) == [data[..i]] + Pieces(data[i + |pat|..], pat, n - 1)
  {
  }

  /** An occurrence cuts a slice into the part before it, itself and the part after it. */
  lemma SplitAround<T>(data: seq<T>, i: nat, pat: seq<T>)
    requires MatchesAt(data, i, pat)
    ensures data == data[..i] + pat + data[i + |pat|..]
  {
    assert data == data[..i] + data[i..i + |pat|] + data[i + |pat|..];
  }

  /** With one piece allowed, or no occurrence, a splitter yields the whole slice. */
  lemma PiecesWhole<T>(data: seq<T>, pat: seq<T>, n: nat)
    requires n == 1 || (n >= 2 && Find(data, pat).None?)
    ensures Pieces(data, pat, n) == [data]
  {
  }

  /** A splitter yields at most as many pieces as allowed, and at least one when allowed any. */
  lemma {:induction false} PiecesCount<T>(data: seq<T>, pat: seq<T>, n: nat)
    ensures |Pieces(data, pat, n)| <= n
    ensures n >= 1 ==> |Pieces(data, pat, n)| >= 1
    decreases n
  {
    if n >= 2 && Find(data, pat).Some? {
      var i := Find(data, pat).value;
      PiecesCount(data[i + |pat|..], pat, n - 1);
      PiecesCountStep(data, pat, n, i);
    } else if n >= 1 {
      PiecesWhole(data, pat, n);
    }
  }

  /** With an occurrence first, there is one piece more than what follows it yields. */
  lemma PiecesCountStep<T>(data: seq<T>, pat: seq<T>, n: nat, i: nat)
    requires n >= 2 && Find(data, pat) == Some(i)
    ensures |Pieces(data, pat, n)| == 1 + |Pieces(data[i + |pat|..], pat, n - 1)|
  {
    PiecesStep(data, pat, n, i);
  }

  /** Joining the pieces with the pattern gives back the input. */
  lemma {:induction false} PiecesJoin<T>(data: seq<T>, pat: seq<T>, n: nat)
    requires n >= 1
    ensures Join(Pieces(data, pat, n), pat) == data
    decreases n
  {
    if n >= 2 && Find(data, pat).Some? {
      var i := Find(data, pat).value;
      PiecesJoin(data[i + |pat|..], pat, n - 1);
      PiecesCount(data[i + |pat|..], pat, n - 1);
      PiecesJoinStep(data, pat, n, i);
    } else {
      PiecesWhole(data, pat, n);
    }
  }

  /** With an occurrence first, the join puts the pattern back between the first piece and the rest. */
  lemma PiecesJoinStep<T>(data: seq<T>, pat: seq<T>, n: nat, i: nat)
    requires n >= 2 && Find(data, pat) == Some(i)
    requires Join(Pieces(data[i + |pat|..], pat, n - 1), pat) == data[i + |pat|..]
    requires |Pieces(data[i + |pat|..], pat, n - 1)| >= 1
    ensures Join(Pieces(data, pat, n), pat) == data
  {
    PiecesStep(data, pat, n, i);
    var rest := data[i + |pat|..];
    var later := Pieces(rest, pat, n - 1);
    var ps := Pieces(data, pat, n);
    assert ps == [data[..i]] + later;
    assert ps[1..] == later;
    assert Join(ps, pat) == data[..i] + pat + rest;
    FindSpec(data, pat);
    SplitAround(data, i, pat);
  }

  /** Splitting an empty slice yields exactly one empty piece. */
  lemma PiecesOfEmpty<T>(pat: seq<T>, n: nat)
    requires n >= 1
    ensures Pieces([], pat, n) == [[]]
  {
  }

  /** An occurrence inside a prefix is an occurrence in the whole. */
  lemma MatchesInPrefix<T>(data: seq<T>, i: nat, j: nat, pat: seq<T>)
    requires i <= |data| && MatchesAt(data[..i], j, pat)
    ensures MatchesAt(data, j, pat)
  {
    assert data[..i][j..j + |pat|] == data[j..j + |pat|];
  }

  /** No piece of `ps` but the last contains `pat`. */
  predicate CleanButLast<T(==)>(ps: seq<seq<T>>, pat: seq<T>) {
    forall k | 0 <= k < |ps| - 1 :: Find(ps[k], pat).None?
  }

  /** No piece but the last contains the pattern: each ends before the first occurrence left. */
  lemma {:induction false} PiecesClean<T>(data: seq<T>, pat: seq<T>, n: nat)
    ensures CleanButLast(Pieces(data, pat, n), pat)
    decreases n
  {
    if n >= 2 && Find(data, pat).Some? {
      var i := Find(data, pat).value;
      PiecesClean(data[i + |pat|..], pat, n - 1);
      PiecesCleanStep(data, pat, n, i);
    } else if n >= 1 {
      PiecesWhole(data, pat, n);
    }
  }

  /** With an occurrence first, the first piece holds none and the later ones are those of what follows. */
  lemma PiecesCleanStep<T>(data: seq<T>, pat: seq<T>, n: nat, i: nat)
    requires n >= 2 && Find(data, pat) == Some(i)
    requires CleanButLast(Pieces(data[i + |pat|..], pat, n - 1), pat)
    ensures CleanButLast(Pieces(data, pat, n), pat)
  {
    PiecesStep(data, pat, n, i);
    FindSpec(data, pat);
    var rest := data[i + |pat|..];
    var later := Pieces(rest, pat, n - 1);
    var ps := Pieces(data, pat, n);
    assert ps == [data[..i]] + later;
    forall j | 0 <= j < i
      ensures !MatchesAt(data[..i], j, pat)
    {
      if MatchesAt(data[..i], j, pat) {
        MatchesInPrefix(data, i, j, pat);
      }
    }
    FindSpec(data[..i], pat);
    assert Find(ps[0], pat).None?;
    forall k | 0 <= k < |ps| - 1
      ensures Find(ps[k], pat).None?
    {
      if k > 0 {
        assert ps[k] == later[k - 1];
      }
    }
  }

  /** A non-empty pattern cuts `data` into at most one more piece than it has bytes. */
  lemma {:induction false} PiecesSize<T>(data: seq<T>, pat: seq<T>, n: nat)
    requires |pat| > 0
    ensures |Pieces(data, pat, n)| <= |data| + 1
    decreases n
  {
    if n >= 2 && Find(data, pat).Some? {
      var i := Find(data, pat).value;
      PiecesSize(data[i + |pat|..], pat, n - 1);
      PiecesCountStep(data, pat, n, i);
    } else if n >= 1 {
      PiecesWhole(data, pat, n);
    }
  }

  /** When fewer pieces came out than allowed, the last one holds no occurrence either. */
  lemma {:induction false} PiecesLastClean<T>(data: seq<T>, pat: seq<T>, n: nat)
    ensures 0 < |Pieces(data, pat, n)| < n ==>
      Find(Pieces(data, pat, n)[|Pieces(data, pat, n)| - 1], pat).None?
    decreases n
  {
    if n >= 2 && Find(data, pat).Some? {
      var i := Find(data, pat).value;
      PiecesLastClean(data[i + |pat|..], pat, n - 1);
      PiecesLastStep(data, pat, n, i);
    } else if n >= 1 {
      PiecesWhole(data, pat, n);
    }
  }

  /** With an occurrence first, the last piece is the last piece of what follows it. */
  lemma PiecesLastStep<T>(data: seq<T>, pat: seq<T>, n: nat, i: nat)
    requires n >= 2 && Find(data, pat) == Some(i)
    requires var later := Pieces(data[i + |pat|..], pat, n - 1);
      0 < |later| < n - 1 ==> Find(later[|later| - 1], pat).None?
    ensures var ps := Pieces(data, pat, n);
      0 < |ps| < n ==> Find(ps[|ps| - 1], pat).None?
  {
    var rest := data[i + |pat|..];
    PiecesCount(rest, pat, n - 1);
    PiecesStep(data, pat, n, i);
  }

  /** A one-byte pattern matches exactly where that byte is. */
  lemma MatchesByte(s: seq<byte>, j: nat, d: byte)
    ensures MatchesAt(s, j, [d]) <==> j < |s| && s[j] == d
  {
    if j < |s| {
      assert s[j..j + 1] == [s[j]];
    }
  }

  /** A text has no occurrence of a one-byte pattern exactly when it lacks that byte. */
  lemma FindByteNone(s: seq<byte>, d: byte)
    ensures Find(s, [d]).None? <==> Excludes(s, d)
  {
    forall j | 0 <= j < |s| ensures MatchesAt(s, j, [d]) <==> s[j] == d {
      MatchesByte(s, j, d);
    }
    FindSpec(s, [d]);
  }

  /**
   * When `p` lacks the first byte of `pat`, the first occurrence of `pat` in
   * `p + pat + t` is the one right after `p`, and `p` alone has none.
   */
  lemma FindAfter(p: seq<byte>, pat: seq<byte>, t: seq<byte>)
    requires |pat| > 0 && Excludes(p, pat[0])
    ensures Find(p, pat) == None
    ensures Find(p + pat + t, pat) == Some(|p|)
  {
    var s := p + pat + t;
    assert s[|p|..|p| + |pat|] == pat;
    assert MatchesAt(s, |p|, pat);
    forall j | 0 <= j < |p|
      ensures !MatchesAt(s, j, pat) && !MatchesAt(p, j, pat)
    {
      assert j + |pat| <= |s| ==> s[j..j + |pat|][0] == s[j] == p[j];
      assert j + |pat| <= |p| ==> p[j..j + |pat|][0] == p[j];
    }
    FindSpec(s, pat);
    FindSpec(p, pat);
  }

  /** The first piece of `p + pat + rest` is `p` when `p` lacks the first byte of `pat`. */
  lemma PiecesAfterFirst(p: seq<byte>, pat: seq<byte>, rest: seq<byte>, n: nat)
    requires |pat| > 0 && n >= 2 && Excludes(p, pat[0])
    ensures Pieces(p + pat + rest, pat, n) == [p] + Pieces(rest, pat, n - 1)
  {
    var s := p + pat + rest;
    FindAfter(p, pat, rest);
    assert s[|p| + |pat|..] == rest;
    assert s[..|p|] == p;
    PiecesStep(s, pat, n, |p|);
  }

  /**
   * Splitting a join gives the parts back when no part but a last one that
   * is the last piece allowed holds the first byte of the pattern.
   */
  lemma {:induction false} PiecesOfJoin(parts: seq<seq<byte>>, pat: seq<byte>, n: nat)
    requires |pat| > 0 && 0 < |parts| <= n
    requires forall i | 0 <= i < |parts| - 1 :: Excludes(parts[i], pat[0])
    requires |parts| < n ==> Excludes(parts[|parts| - 1], pat[0])
    ensures Pieces(Join(parts, pat), pat, n) == parts
    decreases |parts|
  {
    if |parts| == 1 {
      if n > 1 {
        FindAfter(parts[0], pat, []);
      }
      PiecesWhole(parts[0], pat, n);
      assert parts == [parts[0]];
    } else {
      var tail := parts[1..];
      var rest := Join(tail, pat);
      assert Join(parts, pat) == parts[0] + pat + rest;
      forall i | 0 <= i < |tail| - 1
        ensures Excludes(tail[i], pat[0])
      {
        assert tail[i] == parts[i + 1];
      }
      assert tail[|tail| - 1] == parts[|parts| - 1];
      PiecesOfJoin(tail, pat, n - 1);
      PiecesAfterFirst(parts[0], pat, rest, n);
      assert parts == [parts[0]] + tail;
    }
  }

  /** How many bytes of `s` from the front are ASCII whitespace. */
  function LeadingWhitespace(s: seq<byte>): (n: nat)
    ensures n <= |s|
    ensures forall i | 0 <= i < n :: IsWhitespace(s[i])
    ensures n < |s| ==> !IsWhitespace(s[n])
  {
    if s == [] || !IsWhitespace(s[0]) then 0 else 1 + LeadingWhitespace(s[1..])
  }

  /** How many bytes of `s` from the back are ASCII whitespace. */
  function TrailingWhitespace(s: seq<byte>): (n: nat)
    ensures n <= |s|
    ensures forall i | |s| - n <= i < |s| :: IsWhitespace(s[i])
    ensures n < |s| ==> !IsWhitespace(s[|s| - n - 1])
  {
    if s == [] || !IsWhitespace(s[|s| - 1]) then 0 else 1 + TrailingWhitespace(s[..|s| - 1])
  }

  /** `trim_start`: `s` without its leading whitespace run. */
  function TrimStart(s: seq<byte>): (r: seq<byte>)
    ensures |r| <= |s| && r == s[|s| - |r|..]
    ensures forall i | 0 <= i < |s| - |r| :: IsWhitespace(s[i])
    ensures r != [] ==> !IsWhitespace(r[0])
  {
    s[LeadingWhitespace(s)..]
  }

  /** `trim_end`: `s` without its trailing whitespace run. */
  function TrimEnd(s: seq<byte>): (r: seq<byte>)
    ensures |r| <= |s| && r == s[..|r|]
    ensures forall i | |r| <= i < |s| :: IsWhitespace(s[i])
    ensures r != [] ==> !IsWhitespace(r[|r| - 1])
  {
    s[..|s| - TrailingWhitespace(s)]
  }

  /** `trim`: a contiguous part of `s`, whitespace outside it, none at its ends. */
  function Trim(s: seq<byte>): (r: seq<byte>)
    ensures var a := LeadingWhitespace(s);
      && a + |r| <= |s| && r == s[a..a + |r|]
      && (forall i | 0 <= i < a :: IsWhitespace(s[i]))
      && (forall i | a + |r| <= i < |s| :: IsWhitespace(s[i]))
    ensures r != [] ==> !IsWhitespace(r[0]) && !IsWhitespace(r[|r| - 1])
  {
    TrimShape(s);
    TrimEnd(TrimStart(s))
  }

  lemma TrimShape(s: seq<byte>)
    ensures var a, r := LeadingWhitespace(s), TrimEnd(TrimStart(s));
      && a + |r| <= |s| && r == s[a..a + |r|]
      && (forall i | a + |r| <= i < |s| :: IsWhitespace(s[i]))
  {
    var a := LeadingWhitespace(s);
    var t := TrimStart(s);
    var r := TrimEnd(t);
    var b := |r|;
    assert t == s[a..];
    forall i | 0 <= i < b
      ensures r[i] == s[a + i]
    {
      assert r[i] == t[i];
    }
    assert r == s[a..a + b];
    forall i | a + b <= i < |s|
      ensures IsWhitespace(s[i])
    {
      assert s[i] == t[i - a];
    }
  }

  /** Trimming what is already trimmed changes nothing. */
  lemma TrimIdempotent(s: seq<byte>)
    ensures Trim(Trim(s)) == Trim(s)
  {
    var r := Trim(s);
    if r != [] {
      assert LeadingWhitespace(r) == 0;
      assert TrimStart(r) == r;
      assert TrailingWhitespace(r) == 0;
    }
  }

  /** A sequence with no whitespace at either end is its own trim. */
  lemma TrimUnchanged(s: seq<byte>)
    requires |s| > 0 ==> !IsWhitespace(s[0]) && !IsWhitespace(s[|s| - 1])
    ensures Trim(s) == s
  {
    if |s| > 0 {
      assert LeadingWhitespace(s) == 0;
      assert TrimStart(s) == s;
      assert TrailingWhitespace(s) == 0;
    }
  }

  /** Whitespace in front of a trimmed sequence is trimmed away. */
  lemma TrimAfterWhitespace(b: byte, s: seq<byte>)
    requires IsWhitespace(b) && Trim(s) == s
    ensures Trim([b] + s) == s
  {
    var t := [b] + s;
    assert t[1..] == s;
    if |s| > 0 {
      assert LeadingWhitespace(s) == 0;
      assert LeadingWhitespace(t) == 1;
      assert TrimStart(t) == s;
      assert TrailingWhitespace(s) == 0;
    } else {
      assert LeadingWhitespace(t) == 1;
      assert TrimStart(t) == [];
    }
  }
}
