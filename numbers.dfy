/**
 * Unsigned integer parsing in the manner of Rust's `uN::from_str_radix`, and
 * rendering in decimal (`to_string`) and lowercase hexadecimal (`{:x}`).
 */
module Numbers {
  import opened Wrappers
  import opened Bytes
  import opened Ascii

  predicate IsRadix(radix: nat) { radix == 10 || radix == 16 }

  /** A digit of the radix: decimal digits, or hexadecimal digits in either case. */
  predicate IsRadixDigit(b: byte, radix: nat) {
    if radix == 16 then IsHexDigit(b) else IsDigit(b)
  }

  function DigitValue(b: byte): (v: nat)
    requires IsHexDigit(b)
    ensures v < 16
    ensures IsDigit(b) ==> v < 10
  {
    if IsDigit(b) then b - '0' as int
    else if 'a' as int <= b <= 'f' as int then b - 'a' as int + 10
    else b - 'A' as int + 10
  }

  predicate AllRadixDigits(s: seq<byte>, radix: nat) {
    forall i | 0 <= i < |s| :: IsRadixDigit(s[i], radix)
  }

  /** The value of a digit string, most significant digit first. */
  function DigitsValue(s: seq<byte>, radix: nat): nat
    requires AllRadixDigits(s, radix)
  {
    if |s| == 0 then 0
    else DigitsValue(s[..|s| - 1], radix) * radix + DigitValue(s[|s| - 1])
  }

  /** The digits `from_str_radix` looks at: one leading '+' is skipped. */
  function UnsignedDigits(s: seq<byte>): seq<byte> {
    if |s| > 0 && s[0] == '+' as int then s[1..] else s
  }

  /**
   * `uN::from_str_radix(s, radix)` for an unsigned type whose values are below
   * `limit`: empty input, a lone '+', a non-digit or an overflow is an error.
   */
  function ParseUnsigned(s: seq<byte>, radix: nat, limit: nat): (r: Option<nat>)
    requires IsRadix(radix)
    ensures r.Some? ==> r.value < limit
    ensures r.Some? <==> 0 < |UnsignedDigits(s)| && AllRadixDigits(UnsignedDigits(s), radix)
                         && DigitsValue(UnsignedDigits(s), radix) < limit
    ensures r.Some? ==> r.value == DigitsValue(UnsignedDigits(s), radix)
  {
    var digits := UnsignedDigits(s);
    if |digits| == 0 || !AllRadixDigits(digits, radix) then None
    else if DigitsValue(digits, radix) >= limit then None
    else Some(DigitsValue(digits, radix))
  }

  /** A digit rendered in lowercase. */
  function DigitChar(d: nat): (b: byte)
    requires d < 16
    ensures IsHexDigit(b) && DigitValue(b) == d
    ensures d < 10 ==> IsDigit(b)
    ensures !IsUpper(b) && b != '+' as int && b != '-' as int
  {
    if d < 10 then '0' as int + d else 'a' as int + d - 10
  }

  /** `n` in the radix, most significant digit first, lowercase, no leading zeros. */
  function Render(n: nat, radix: nat): (r: seq<byte>)
    requires IsRadix(radix)
    ensures |r| > 0
    decreases n
  {
    if n < radix then [DigitChar(n)]
    else Render(n / radix, radix) + [DigitChar(n % radix)]
  }

  /** `format!("{}", n)` */
  function Decimal(n: nat): seq<byte> { Render(n, 10) }

  /** `format!("{:x}", n)` */
  function LowerHex(n: nat): seq<byte> { Render(n, 16) }

  /** `i32::to_string`: a '-' before the magnitude of a negative number. */
  function SignedDecimal(n: int): (r: seq<byte>)
    ensures n < 0 ==> r == ['-' as int] + Decimal(-n)
    ensures n >= 0 ==> r == Decimal(n)
  {
    if n < 0 then ['-' as int] + Decimal(-n) else Decimal(n)
  }

  function Pow(base: nat, k: nat): nat {
    if k == 0 then 1 else base * Pow(base, k - 1)
  }

  /** Rendered digits are digits of the radix, and none of them is a sign or an uppercase letter. */
  lemma {:induction false} RenderDigits(n: nat, radix: nat)
    requires IsRadix(radix)
    ensures AllRadixDigits(Render(n, radix), radix)
    ensures forall i | 0 <= i < |Render(n, radix)| :: !IsUpper(Render(n, radix)[i])
    ensures Render(n, radix)[0] != '+' as int && Render(n, radix)[0] != '-' as int
    decreases n
  {
    if n >= radix {
      RenderDigits(n / radix, radix);
    }
  }

  /** Rendering is inverted by the digit value. */
  lemma {:induction false} RenderValue(n: nat, radix: nat)
    requires IsRadix(radix)
    ensures AllRadixDigits(Render(n, radix), radix)
    ensures DigitsValue(Render(n, radix), radix) == n
    decreases n
  {
    RenderDigits(n, radix);
    if n >= radix {
      var r := Render(n, radix);
      assert r[..|r| - 1] == Render(n / radix, radix);
      RenderValue(n / radix, radix);
    }
  }

  /** Parsing a rendered number gives it back, for every value the type can hold. */
  lemma RenderParse(n: nat, radix: nat, limit: nat)
    requires IsRadix(radix) && n < limit
    ensures ParseUnsigned(Render(n, radix), radix, limit) == Some(n)
  {
    RenderDigits(n, radix);
    RenderValue(n, radix);
  }

  /** A value below `radix^k` renders in at most `k` digits (k >= 1). */
  lemma {:induction false} RenderLength(n: nat, radix: nat, k: nat)
    requires IsRadix(radix) && 1 <= k && n < Pow(radix, k)
    ensures |Render(n, radix)| <= k
    decreases k
  {
    if n >= radix {
      assert k > 1;
      assert n / radix < Pow(radix, k - 1);
      RenderLength(n / radix, radix, k - 1);
    }
  }

  lemma MulAssoc(a: nat, b: nat, c: nat)
    ensures a * (b * c) == a * b * c
  {
  }

  lemma {:induction false} PowAdd(base: nat, i: nat, j: nat)
    ensures Pow(base, i + j) == Pow(base, i) * Pow(base, j)
    decreases i
  {
    if i > 0 {
      PowAdd(base, i - 1, j);
      calc {
        Pow(base, i + j);
        base * Pow(base, i - 1 + j);
        base * (Pow(base, i - 1) * Pow(base, j));
        { MulAssoc(base, Pow(base, i - 1), Pow(base, j)); }
        base * Pow(base, i - 1) * Pow(base, j);
      }
    }
  }

  /** A `u64` renders in at most 16 hexadecimal digits. */
  lemma HexLengthU64(n: nat)
    requires n < U64_LIMIT
    ensures |LowerHex(n)| <= 16
  {
    assert Pow(16, 2) == 256;
    PowAdd(16, 2, 2);
    PowAdd(16, 4, 4);
    PowAdd(16, 8, 8);
    RenderLength(n, 16, 16);
  }
}
