/**
 * Well-formed UTF-8 (section 4 of RFC 3629), as a validity predicate only:
 * where the source decodes with `str::from_utf8`/`String::from_utf8`, the
 * model needs only to know whether the decoding succeeds.
 */
module Utf8 {
  import opened Bytes

  predicate IsContinuation(b: byte) { 0x80 <= b <= 0xBF }

  /** The bytes form a sequence of well-formed UTF-8 characters. */
  predicate IsUtf8(s: seq<byte>)
    decreases |s|
  {
    if s == [] then true
    else if s[0] < 0x80 then IsUtf8(s[1..])
    else if 0xC2 <= s[0] <= 0xDF then
      |s| >= 2 && IsContinuation(s[1]) && IsUtf8(s[2..])
    else if 0xE0 <= s[0] <= 0xEF then
      |s| >= 3 && IsContinuation(s[1]) && IsContinuation(s[2])
      && (s[0] == 0xE0 ==> 0xA0 <= s[1]) && (s[0] == 0xED ==> s[1] <= 0x9F)
      && IsUtf8(s[3..])
    else if 0xF0 <= s[0] <= 0xF4 then
      |s| >= 4 && IsContinuation(s[1]) && IsContinuation(s[2]) && IsContinuation(s[3])
      && (s[0] == 0xF0 ==> 0x90 <= s[1]) && (s[0] == 0xF4 ==> s[1] <= 0x8F)
      && IsUtf8(s[4..])
    else false
  }

  predicate IsAsciiOnly(s: seq<byte>) { forall i | 0 <= i < |s| :: s[i] < 0x80 }

  /** Every ASCII text is UTF-8 (the 7-bit bytes are one-byte characters). */
  lemma {:induction false} AsciiIsUtf8(s: seq<byte>)
    requires IsAsciiOnly(s)
    ensures IsUtf8(s)
    decreases |s|
  {
    if s != [] {
      assert IsAsciiOnly(s[1..]);
      AsciiIsUtf8(s[1..]);
    }
  }

  /** Two UTF-8 texts written one after the other form a UTF-8 text. */
  lemma {:induction false} ConcatIsUtf8(a: seq<byte>, b: seq<byte>)
    requires IsUtf8(a) && IsUtf8(b)
    ensures IsUtf8(a + b)
    decreases |a|
  {
    if a != [] {
      var c := a + b;
      if a[0] < 0x80 {
        assert c[1..] == a[1..] + b;
        ConcatIsUtf8(a[1..], b);

      } else if a[0] <= 0xDF {
        assert c[1] == a[1] && c[2..] == a[2..] + b;
        ConcatIsUtf8(a[2..], b);
      } else if a[0] <= 0xEF {
        assert c[1] == a[1] && c[2] == a[2] && c[3..] == a[3..] + b;
        ConcatIsUtf8(a[3..], b);
      } else {
        assert c[1] == a[1] && c[2] == a[2] && c[3] == a[3] && c[4..] == a[4..] + b;
        ConcatIsUtf8(a[4..], b);
      }
    } else {
      assert a + b == b;
    }
  }
}
