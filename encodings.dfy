/**
 * The encodings of `src/data/encodings.rs`: which byte strings each accepts
 * (`is_valid`), when two of its strings are equal (`is_eq`) and what it
 * feeds a hasher (`hash`).
 */
module Encodings {
  import opened Bytes
  import C = Ascii
  import opened Utf8

  /** The encoding types of the source; `Data<E>` carries one of them. */
  datatype Encoding = Ascii | HeaderFieldKey | Uri | UriQuery | Integer

  /** Printable ASCII: alphanumeric, whitespace or punctuation. */
  predicate IsPrintable(b: byte) {
    C.IsAlphanumeric(b) || C.IsWhitespace(b) || C.IsPunctuation(b)
  }

  predicate AsciiValid(s: seq<byte>) {
    forall i | 0 <= i < |s| :: IsPrintable(s[i])
  }

  /** The separators of section 3.2.6 of RFC 7230, with SP and HT. */
  predicate IsSeparator(b: byte) {
    b == '(' as int || b == ')' as int || b == '<' as int || b == '>' as int || b == '@' as int
    || b == ',' as int || b == ';' as int || b == ':' as int || b == '/' as int || b == '[' as int
    || b == ']' as int || b == '?' as int || b == '=' as int || b == '{' as int || b == '}' as int
    || b == ' ' as int || b == '\t' as int || b == '"' as int || b == '\\' as int
  }

  /** A header-key byte as the source checks it: 32..=127 and not a separator. */
  predicate IsKeyByte(b: byte) {
    !(b > 127) && !(b < 32) && !IsSeparator(b)
  }

  predicate KeyValid(s: seq<byte>) {
    |s| > 0 && forall i | 0 <= i < |s| :: IsKeyByte(s[i])
  }

  /** The unreserved characters of section 2.3 of RFC 3986. */
  predicate Unreserved(b: byte) {
    C.IsAlphanumeric(b) || b == '-' as int || b == '.' as int || b == '_' as int || b == '~' as int
  }

  /** The gen-delims of section 2.2 of RFC 3986. */
  predicate GenDelim(b: byte) {
    b == ':' as int || b == '/' as int || b == '?' as int || b == '#' as int
    || b == '[' as int || b == ']' as int || b == '@' as int
  }

  /** The sub-delims of section 2.2 of RFC 3986. */
  predicate SubDelim(b: byte) {
    b == '!' as int || b == '$' as int || b == '&' as int || b == '\'' as int || b == '(' as int
    || b == ')' as int || b == '*' as int || b == '+' as int || b == ',' as int || b == ';' as int
    || b == '=' as int
  }

  predicate Reserved(b: byte) { GenDelim(b) || SubDelim(b) }

  /** The two percent-escaped character sets: a whole URI, and a query (section 3.4 of RFC 3986). */
  datatype Charset = UriChars | QueryChars

  /** A byte the charset accepts as it is, without an escape. */
  predicate Plain(cs: Charset, b: byte) {
    match cs
    case UriChars => Unreserved(b) || Reserved(b)
    case QueryChars => Unreserved(b) || SubDelim(b) || b == ':' as int || b == '@' as int
  }

  /**
   * Every byte is plain, or a '%' that, with the two bytes after it, forms a
   * percent escape of two hex digits (section 2.1 of RFC 3986).
   */
  predicate EscapedValid(s: seq<byte>, cs: Charset)
    decreases |s|
  {
    if s == [] then true
    else if Plain(cs, s[0]) then EscapedValid(s[1..], cs)
    else (s[0] == '%' as int && |s| >= 3 && C.IsHexDigit(s[1]) && C.IsHexDigit(s[2])
      && EscapedValid(s[3..], cs))
  }

  predicate IntegerValid(s: seq<byte>) {
    forall i | 0 <= i < |s| :: C.IsDigit(s[i])
  }

  /** `E::is_valid` */
  predicate IsValid(e: Encoding, s: seq<byte>) {
    match e
    case Ascii => AsciiValid(s)
    case HeaderFieldKey => KeyValid(s)
    case Uri => EscapedValid(s, UriChars)
    case UriQuery => EscapedValid(s, QueryChars)
    case Integer => IntegerValid(s)
  }

  /**
   * `Uri::is_valid` and `UriQuery::is_valid`: a scan that advances over one
   * byte, or over a percent escape, at a time.
   */
  method IsValidEscaped(bytes: seq<byte>, cs: Charset) returns (r: bool)
    ensures r == EscapedValid(bytes, cs)
  {
    var i := 0;
    while i < |bytes|
      invariant i <= |bytes|
      invariant EscapedValid(bytes, cs) == EscapedValid(bytes[i..], cs)
      decreases |bytes| - i
    {
      var b := bytes[i];
      assert bytes[i..][0] == b;
      if Plain(cs, b) {
        assert bytes[i..][1..] == bytes[i + 1..];
        i := i + 1;
        continue;
      }
      // `percent_encoding`: a '%' and then two hex digits
      if b != '%' as int || i + 3 > |bytes| || !C.IsHexDigit(bytes[i + 1]) || !C.IsHexDigit(bytes[i + 2]) {
        return false;
      }
      assert bytes[i..][3..] == bytes[i + 3..];
      i := i + 3;
    }
    assert bytes[i..] == [];
    return true;
  }

  /**
   * `E::is_eq`: header keys compare as ASCII-lowercased UTF-8 text (the
   * source unwraps the UTF-8 decoding, so it demands UTF-8); the others
   * compare bytes.
   */
  predicate IsEq(e: Encoding, a: seq<byte>, b: seq<byte>)
    requires e == HeaderFieldKey ==> IsUtf8(a) && IsUtf8(b)
  {
    if e == HeaderFieldKey then C.Lowercase(a) == C.Lowercase(b) else a == b
  }

  /** The bytes `E::hash` writes into the hasher. */
  function HashInput(e: Encoding, s: seq<byte>): (r: seq<byte>)
    requires e == HeaderFieldKey ==> IsUtf8(s)
    ensures |r| == |s|
    ensures e != HeaderFieldKey ==> r == s
    ensures e == HeaderFieldKey ==> !C.HasUpper(r)
  {
    if e == HeaderFieldKey then C.Lowercase(s) else s
  }

  /** `is_eq` is an equivalence relation. */
  lemma EqIsEquivalence(e: Encoding, a: seq<byte>, b: seq<byte>, c: seq<byte>)
    requires e == HeaderFieldKey ==> IsUtf8(a) && IsUtf8(b) && IsUtf8(c)
    ensures IsEq(e, a, a)
    ensures IsEq(e, a, b) ==> IsEq(e, b, a)
    ensures IsEq(e, a, b) && IsEq(e, b, c) ==> IsEq(e, a, c)
  {
  }

  /** Equal strings hash alike, and strings hashing alike are equal. */
  lemma EqualHashAlike(e: Encoding, a: seq<byte>, b: seq<byte>)
    requires e == HeaderFieldKey ==> IsUtf8(a) && IsUtf8(b)
    ensures IsEq(e, a, b) <==> HashInput(e, a) == HashInput(e, b)
  {
  }

  /** Header keys differing only in the case of letters are equal. */
  lemma KeyEqIgnoresCase(a: seq<byte>)
    requires IsUtf8(a)
    ensures IsUtf8(C.Lowercase(a))
    ensures IsEq(HeaderFieldKey, a, C.Lowercase(a))
  {
    LowercaseUtf8(a);
    C.LowercaseNormal(a);
  }

  /** Lowercasing keeps UTF-8 well-formed: it changes only ASCII letters. */
  lemma {:induction false} LowercaseUtf8(s: seq<byte>)
    requires IsUtf8(s)
    ensures IsUtf8(C.Lowercase(s))
    decreases |s|
  {
    if s != [] {
      var n := if s[0] < 0x80 then 1 else if s[0] <= 0xDF then 2 else if s[0] <= 0xEF then 3 else 4;
      assert C.Lowercase(s)[n..] == C.Lowercase(s[n..]);
      LowercaseUtf8(s[n..]);
    }
  }

  /** Printable ASCII is exactly the visible characters 0x21..0x7E and the whitespace. */
  lemma AsciiIsVisibleOrSpace(s: seq<byte>)
    ensures AsciiValid(s) <==> forall i | 0 <= i < |s| :: 0x21 <= s[i] <= 0x7E || C.IsWhitespace(s[i])
  {
  }

  /** A valid header key is 7-bit text, hence UTF-8, and holds no whitespace. */
  lemma KeyIsAsciiText(s: seq<byte>)
    requires KeyValid(s)
    ensures IsAsciiOnly(s) && IsUtf8(s)
    ensures forall i | 0 <= i < |s| :: !C.IsWhitespace(s[i])
  {
    AsciiIsUtf8(s);
  }

  /** A key accepted as written: the byte DEL (0x7F) passes the `b > 127` guard. */
  lemma KeyAcceptsDelete()
    ensures KeyValid([0x7F]) && !AsciiValid([0x7F])
  {
    assert !IsPrintable([0x7F as byte][0]);
  }

  /** A token of section 3.2.6 of RFC 7230: visible ASCII (0x21..0x7E) without separators. */
  predicate IsToken(s: seq<byte>) {
    |s| > 0 && forall i | 0 <= i < |s| :: 0x21 <= s[i] <= 0x7E && !IsSeparator(s[i])
  }

  /**
   * The corrected key check: a token is exactly a key the source accepts
   * that holds no DEL, and it is always printable ASCII.
   */
  lemma TokenIsKeyWithoutDelete(s: seq<byte>)
    ensures IsToken(s) <==> KeyValid(s) && forall i | 0 <= i < |s| :: s[i] != 0x7F
    ensures IsToken(s) ==> AsciiValid(s)
  {
  }

  /** Every query is a URI: the query charset is a subset of the URI charset. */
  lemma {:induction false} QueryIsUri(s: seq<byte>)
    requires EscapedValid(s, QueryChars)
    ensures EscapedValid(s, UriChars)
    decreases |s|
  {
    if s != [] {
      if Plain(QueryChars, s[0]) {
        QueryIsUri(s[1..]);
      } else {
        QueryIsUri(s[3..]);
      }
    }
  }

  /** A valid query holds no '/', no '?' and no '#', not even inside an escape. */
  lemma {:induction false} QueryExcludesDelimiters(s: seq<byte>)
    requires EscapedValid(s, QueryChars)
    ensures forall i | 0 <= i < |s| :: s[i] != '/' as int && s[i] != '?' as int && s[i] != '#' as int
    decreases |s|
  {
    if s != [] {
      var n := if Plain(QueryChars, s[0]) then 1 else 3;
      QueryExcludesDelimiters(s[n..]);
      forall i | 0 <= i < |s| ensures s[i] != '/' as int && s[i] != '?' as int && s[i] != '#' as int {
        if i >= n {
          assert s[i] == s[n..][i - n];
        }
      }
    }
  }

  /** A '%' followed by fewer than two bytes makes any text invalid. */
  lemma {:induction false} TruncatedEscape(s: seq<byte>, tail: seq<byte>, cs: Charset)
    requires 0 < |tail| < 3 && tail[0] == '%' as int
    ensures !EscapedValid(s + tail, cs)
    decreases |s|
  {
    var t := s + tail;
    if s == [] {
      assert t == tail;
    } else if Plain(cs, s[0]) {
      assert t[1..] == s[1..] + tail;
      TruncatedEscape(s[1..], tail, cs);
    } else if |s| >= 3 {
      assert t[3..] == s[3..] + tail;
      TruncatedEscape(s[3..], tail, cs);
    } else {
      assert t[|s|] == '%' as int;
    }
  }

  /** A '%' followed by a byte that is not a hex digit makes any text invalid. */
  lemma {:induction false} NonHexEscape(s: seq<byte>, x: byte, y: byte, rest: seq<byte>, cs: Charset)
    requires !C.IsHexDigit(x) || !C.IsHexDigit(y)
    ensures !EscapedValid(s + ['%' as int, x, y] + rest, cs)
    decreases |s|
  {
    var esc: seq<byte> := ['%' as int, x, y];
    var t := s + esc + rest;
    if s == [] {
      assert t == esc + rest;
      assert t[0] == '%' as int && t[1] == x && t[2] == y;
    } else if Plain(cs, s[0]) {
      assert t[1..] == s[1..] + esc + rest;
      NonHexEscape(s[1..], x, y, rest, cs);
    } else if |s| >= 3 {
      assert t[3..] == s[3..] + esc + rest;
      NonHexEscape(s[3..], x, y, rest, cs);
    } else {
      assert t[|s|] == '%' as int;
    }
  }
}
