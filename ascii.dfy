/** The ASCII classifications and case mapping of Rust's `u8`. */
module Ascii {
  import opened Bytes

  predicate IsUpper(b: byte) { 'A' as int <= b <= 'Z' as int }
  predicate IsLower(b: byte) { 'a' as int <= b <= 'z' as int }
  predicate IsAlphabetic(b: byte) { IsUpper(b) || IsLower(b) }
  predicate IsDigit(b: byte) { '0' as int <= b <= '9' as int }
  predicate IsAlphanumeric(b: byte) { IsAlphabetic(b) || IsDigit(b) }
  predicate IsHexDigit(b: byte) {
    IsDigit(b) || 'a' as int <= b <= 'f' as int || 'A' as int <= b <= 'F' as int
  }

  /** `u8::is_ascii_whitespace`: SP, HT, LF, FF and CR (vertical tab is not included). */
  predicate IsWhitespace(b: byte) { b == 0x20 || b == 0x09 || b == 0x0A || b == 0x0C || b == 0x0D }

  /** `u8::is_ascii_punctuation`: ``!"#$%&'()*+,-./ :;<=>?@ [\]^_` {|}~`` */
  predicate IsPunctuation(b: byte) {
    0x21 <= b <= 0x2F || 0x3A <= b <= 0x40 || 0x5B <= b <= 0x60 || 0x7B <= b <= 0x7E
  }

  /** `u8::to_ascii_lowercase` */
  function ToLower(b: byte): (r: byte)
    ensures IsUpper(b) ==> r == b + 0x20
    ensures !IsUpper(b) ==> r == b
    ensures !IsUpper(r)
  {
    if IsUpper(b) then b + 0x20 else b
  }

  /** `<[u8]>::to_ascii_lowercase`: byte-wise lowercasing. */
  function Lowercase(s: seq<byte>): (r: seq<byte>)
    ensures |r| == |s|
    ensures forall i | 0 <= i < |s| :: r[i] == ToLower(s[i])
  {
    seq(|s|, i requires 0 <= i < |s| => ToLower(s[i]))
  }

  predicate HasUpper(s: seq<byte>) { exists i | 0 <= i < |s| :: IsUpper(s[i]) }

  /** Lowercasing leaves no uppercase letter and is idempotent. */
  lemma LowercaseNormal(s: seq<byte>)
    ensures !HasUpper(Lowercase(s))
    ensures Lowercase(Lowercase(s)) == Lowercase(s)
  {
  }

  /** Lowercasing changes nothing exactly when there is no uppercase letter. */
  lemma LowercaseIdentity(s: seq<byte>)
    ensures Lowercase(s) == s <==> !HasUpper(s)
  {
    if Lowercase(s) == s {
      forall i | 0 <= i < |s| ensures !IsUpper(s[i]) {
        assert Lowercase(s)[i] == s[i];
      }
    }
  }

  lemma LowercaseAppend(a: seq<byte>, b: seq<byte>)
    ensures Lowercase(a + b) == Lowercase(a) + Lowercase(b)
  {
  }
}
