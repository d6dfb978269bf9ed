/**
 * Bytes and the byte-sequence search helpers the parsers share.
 * A Rust `u8` is `byte`; a `&[u8]`/`Vec<u8>` is `seq<byte>`.
 */
module Bytes {
  import opened Wrappers

  type byte = b: int | 0 <= b < 0x100

  /** Largest values of the fixed-width integer types the source uses. */
  const U16_LIMIT: nat := 0x1_0000
  const U64_LIMIT: nat := 0x1_0000_0000_0000_0000

  /** The bytes of an ASCII string literal. */
  function Str(s: string): (r: seq<byte>)
    requires forall i | 0 <= i < |s| :: s[i] as int < 0x100
    ensures |r| == |s|
    ensures forall i | 0 <= i < |s| :: r[i] == s[i] as int
  {
    seq(|s|, i requires 0 <= i < |s| => s[i] as int)
  }

  const CR: byte := 0x0D
  const LF: byte := 0x0A
  const SP: byte := 0x20
  const CRLF: seq<byte> := [CR, LF]
  const CRLF_CRLF: seq<byte> := [CR, LF, CR, LF]

  function Min(a: nat, b: nat): nat { if a <= b then a else b }

  /** `s.ends_with(suffix)` */
  predicate EndsWith<T(==)>(s: seq<T>, suffix: seq<T>) {
    |suffix| <= |s| && s[|s| - |suffix|..] == suffix
  }

  /** `s.starts_with(prefix)` */
  predicate StartsWith<T(==)>(s: seq<T>, prefix: seq<T>) {
    |prefix| <= |s| && s[..|prefix|] == prefix
  }

  /** `s[..k]` ends with `pat`: an occurrence of `pat` ends at index `k`. */
  predicate EndsAt<T(==)>(s: seq<T>, k: nat, pat: seq<T>)
    requires k <= |s|
  {
    EndsWith(s[..k], pat)
  }

  /** An occurrence of `pat` cannot end at `k` when the byte where it would start differs. */
  lemma NotEndsAt<T>(s: seq<T>, k: nat, pat: seq<T>)
    requires k <= |s| && |pat| > 0
    requires k < |pat| || s[k - |pat|] != pat[0]
    ensures !EndsAt(s, k, pat)
  {
    if k >= |pat| {
      assert s[..k][k - |pat|..][0] == s[k - |pat|];
    }
  }

  /** A slice of a prefix is the same slice of the whole. */
  lemma SliceOfPrefix<T>(s: seq<T>, k: nat, i: nat, j: nat)
    requires i <= j <= k <= |s|
    ensures s[..k][i..j] == s[i..j]
  {
    forall m | 0 <= m < j - i
      ensures s[..k][i..j][m] == s[i..j][m]
    {
    }
  }

  /** `pat` occurs in `s` starting at index `i`. */
  predicate MatchesAt<T(==)>(s: seq<T>, i: nat, pat: seq<T>) {
    i + |pat| <= |s| && s[i..i + |pat|] == pat
  }

  /**
   * The first index `i < |s|` at which `pat` occurs, the search
   * `(0..len).find(|i| data[i..].starts_with(pat))`. Its contract gives only
   * the bounds that slicing needs; `FindSpec` states what it finds.
   */
  function Find<T(==)>(s: seq<T>, pat: seq<T>): (r: Option<nat>)
    ensures r.Some? ==> r.value < |s| && r.value + |pat| <= |s|
  {
    FindFrom(s, pat, 0)
  }

  function FindFrom<T(==)>(s: seq<T>, pat: seq<T>, from: nat): (r: Option<nat>)
    requires from <= |s|
    ensures r.Some? ==> from <= r.value < |s| && r.value + |pat| <= |s|
    decreases |s| - from
  {
    if from == |s| then None
    else if MatchesAt(s, from, pat) then Some(from)
    else FindFrom(s, pat, from + 1)
  }

  lemma {:induction false} FindFromSpec<T>(s: seq<T>, pat: seq<T>, from: nat)
    requires from <= |s|
    requires forall j | 0 <= j < from :: !MatchesAt(s, j, pat)
    ensures FindFrom(s, pat, from).Some? ==> MatchesAt(s, FindFrom(s, pat, from).value, pat)
    ensures FindFrom(s, pat, from).Some? ==> forall j | 0 <= j < FindFrom(s, pat, from).value :: !MatchesAt(s, j, pat)
    ensures FindFrom(s, pat, from).None? ==> forall j | 0 <= j < |s| :: !MatchesAt(s, j, pat)
    decreases |s| - from
  {
    if from < |s| && !MatchesAt(s, from, pat) {
      FindFromSpec(s, pat, from + 1);
    }
  }

  /** `Find` yields an occurrence with none before it, or there is none at all. */
  lemma FindSpec<T>(s: seq<T>, pat: seq<T>)
    ensures Find(s, pat).Some? ==> MatchesAt(s, Find(s, pat).value, pat)
    ensures Find(s, pat).Some? ==> forall j | 0 <= j < Find(s, pat).value :: !MatchesAt(s, j, pat)
    ensures Find(s, pat).None? ==> forall j | 0 <= j < |s| :: !MatchesAt(s, j, pat)
  {
    FindFromSpec(s, pat, 0);
  }

  /** The first `k` in `from..=|s|` at which an occurrence of `pat` ends in `s`. */
  function FirstEnd<T(==)>(s: seq<T>, pat: seq<T>, from: nat): (r: Option<nat>)
    requires from <= |s|
    ensures r.Some? ==> from <= r.value <= |s| && EndsAt(s, r.value, pat)
    ensures r.Some? ==> forall k | from <= k < r.value :: !EndsAt(s, k, pat)
    ensures r.None? ==> forall k | from <= k <= |s| :: !EndsAt(s, k, pat)
    decreases |s| - from
  {
    if EndsAt(s, from, pat) then Some(from)
    else if from == |s| then None
    else FirstEnd(s, pat, from + 1)
  }

  /** Where an occurrence ends depends only on the bytes up to that point. */
  lemma EndsAtPrefix<T>(s: seq<T>, t: seq<T>, k: nat, pat: seq<T>)
    requires k <= |s| && k <= |t| && s[..k] == t[..k]
    ensures EndsAt(s, k, pat) == EndsAt(t, k, pat)
  {
  }

  /** A one-byte pattern ends at `k` exactly when the byte before `k` is it. */
  lemma EndsAtByte(s: seq<byte>, k: nat, d: byte)
    requires k <= |s|
    ensures EndsAt(s, k, [d]) <==> 0 < k && s[k - 1] == d
  {
    if 0 < k {
      assert s[..k][k - 1..] == [s[k - 1]];
    }
  }

  /** The first end of a one-byte delimiter is just past its first occurrence. */
  lemma FirstEndByte(p: seq<byte>, d: byte, t: seq<byte>)
    requires Excludes(p, d)
    ensures FirstEnd(p + [d] + t, [d], 0) == Some(|p| + 1)
    ensures FirstEnd(p, [d], 0) == None
  {
    var s := p + [d] + t;
    EndsAtByte(s, |p| + 1, d);
    forall k | 0 <= k <= |p| ensures !EndsAt(s, k, [d]) && !EndsAt(p, k, [d]) {
      EndsAtByte(s, k, d);
      EndsAtByte(p, k, d);
    }
  }

  /** Whether `pat` occurs anywhere in `s`. */
  predicate Contains<T(==)>(s: seq<T>, pat: seq<T>) {
    exists i | 0 <= i <= |s| - |pat| :: MatchesAt(s, i, pat)
  }

  /** Joins `parts` with `sep` between consecutive parts. */
  function Join<T>(parts: seq<seq<T>>, sep: seq<T>): seq<T> {
    if |parts| == 0 then []
    else if |parts| == 1 then parts[0]
    else parts[0] + sep + Join(parts[1..], sep)
  }

  /** Joining one more part onto a non-empty list puts a separator before it. */
  lemma {:induction false} JoinAppend(parts: seq<seq<byte>>, last: seq<byte>, sep: seq<byte>)
    requires parts != []
    ensures Join(parts + [last], sep) == Join(parts, sep) + sep + last
    decreases |parts|
  {
    if |parts| > 1 {
      assert (parts + [last])[1..] == parts[1..] + [last];
      JoinAppend(parts[1..], last, sep);
    }
  }

  /** A join of non-empty parts ends with the last part's last byte. */
  lemma {:induction false} JoinLast(parts: seq<seq<byte>>, sep: seq<byte>)
    requires parts != [] && |parts[|parts| - 1]| > 0
    ensures |Join(parts, sep)| > 0
    ensures Join(parts, sep)[|Join(parts, sep)| - 1] == parts[|parts| - 1][|parts[|parts| - 1]| - 1]
    decreases |parts|
  {
    if |parts| > 1 {
      JoinLast(parts[1..], sep);
    }
  }

  /** Concatenation of all parts. */
  function Concat<T>(parts: seq<seq<T>>): seq<T> {
    if |parts| == 0 then [] else parts[0] + Concat(parts[1..])
  }

  lemma ConcatAppend<T>(parts: seq<seq<T>>, last: seq<T>)
    ensures Concat(parts + [last]) == Concat(parts) + last
  {
    if |parts| == 0 {
      assert parts + [last] == [last];
    } else {
      assert (parts + [last])[1..] == parts[1..] + [last];
      ConcatAppend(parts[1..], last);
    }
  }

  /** No byte of `s` is `b`. */
  predicate Excludes(s: seq<byte>, b: byte) {
    forall i | 0 <= i < |s| :: s[i] != b
  }

  /** A concatenation lacks a byte exactly when both halves do. */
  lemma ExcludesConcat(s: seq<byte>, t: seq<byte>, b: byte)
    ensures Excludes(s + t, b) <==> Excludes(s, b) && Excludes(t, b)
  {
    if Excludes(s + t, b) {
      forall i | 0 <= i < |s|
        ensures s[i] != b
      {
        assert (s + t)[i] == s[i];
      }
      forall i | 0 <= i < |t|
        ensures t[i] != b
      {
        assert (s + t)[|s| + i] == t[i];
      }
    }
    if Excludes(s, b) && Excludes(t, b) {
      forall i | 0 <= i < |s + t|
        ensures (s + t)[i] != b
      {
        if i >= |s| {
          assert (s + t)[i] == t[i - |s|];
        }
      }
    }
  }

  /** Every CR in `s` is followed, two bytes on, by a byte of `s` that is not CR. */
  predicate LoneBreaks(s: seq<byte>) {
    forall j | 0 <= j < |s| && s[j] == CR :: j + 2 < |s| && s[j + 2] != CR
  }

  /** Lines without CR, none empty, joined by "\r\n": the only CRs are the breaks, each followed by a line. */
  lemma {:induction false} JoinBreaks(lines: seq<seq<byte>>)
    requires |lines| > 0
    requires forall i | 0 <= i < |lines| :: |lines[i]| > 0 && Excludes(lines[i], CR)
    ensures var s := Join(lines, CRLF); |s| > 0 && s[0] == lines[0][0] && LoneBreaks(s)
    decreases |lines|
  {
    var s := Join(lines, CRLF);
    if |lines| > 1 {
      var rest := Join(lines[1..], CRLF);
      JoinBreaks(lines[1..]);
      var p := lines[0];
      assert s == p + CRLF + rest;
      assert forall j | 0 <= j < |p| :: s[j] == p[j];
      assert s[|p| + 1] == LF;
      forall j | 0 <= j < |s| && s[j] == CR
        ensures j + 2 < |s| && s[j + 2] != CR
      {
        if j == |p| {
          assert s[j + 2] == rest[0] == lines[1][0];
        } else if j > |p| + 1 {
          assert s[j] == rest[j - |p| - 2];
          assert s[j + 2] == rest[j - |p|];
        }
      }
    }
  }

  /** After such a join, the first "\r\n\r\n" is the one that follows it. */
  lemma FindHeaderEnd(lines: seq<seq<byte>>, body: seq<byte>)
    requires |lines| > 0
    requires forall i | 0 <= i < |lines| :: |lines[i]| > 0 && Excludes(lines[i], CR)
    ensures var head := Join(lines, CRLF);
      Find(head + CRLF_CRLF + body, CRLF_CRLF) == Some(|head|)
  {
    var head := Join(lines, CRLF);
    var s := head + CRLF_CRLF + body;
    JoinBreaks(lines);
    assert s[|head|..|head| + 4] == CRLF_CRLF;
    assert MatchesAt(s, |head|, CRLF_CRLF);
    forall j | 0 <= j < |head|
      ensures !MatchesAt(s, j, CRLF_CRLF)
    {
      assert s[j..j + 4][0] == s[j] == head[j] && s[j..j + 4][2] == s[j + 2];
      assert head[j] == CR ==> s[j + 2] == head[j + 2];
    }
    FindSpec(s, CRLF_CRLF);
  }

  /** An occurrence ends at `k` exactly when one starts at `k - |pat|`. */
  lemma EndsAtMatches<T>(s: seq<T>, k: nat, pat: seq<T>)
    requires k <= |s|
    ensures EndsAt(s, k, pat) <==> |pat| <= k && MatchesAt(s, k - |pat|, pat)
  {
    if |pat| <= k {
      assert s[..k][k - |pat|..] == s[k - |pat|..k];
    }
  }

  /** The first occurrence to end is the first occurrence to start. */
  lemma FirstEndOfFind<T>(s: seq<T>, pat: seq<T>)
    requires Find(s, pat).Some?
    ensures FirstEnd(s, pat, 0) == Some(Find(s, pat).value + |pat|)
  {
    var i := Find(s, pat).value;
    FindSpec(s, pat);
    EndsAtMatches(s, i + |pat|, pat);
    forall k | 0 <= k < i + |pat|
      ensures !EndsAt(s, k, pat)
    {
      EndsAtMatches(s, k, pat);
    }
  }

  /** When no byte before `pat` is its first byte, the first occurrence of `pat` ends right after it. */
  lemma FirstEndAfter(p: seq<byte>, pat: seq<byte>, t: seq<byte>)
    requires |pat| > 0 && Excludes(p, pat[0])
    ensures FirstEnd(p + pat + t, pat, 0) == Some(|p| + |pat|)
  {
    var s := p + pat + t;
    assert s[|p|..|p| + |pat|] == pat;
    EndsAtMatches(s, |p| + |pat|, pat);
    forall k | 0 <= k < |p| + |pat|
      ensures !EndsAt(s, k, pat)
    {
      NotEndsAt(s, k, pat);
    }
  }
}
