/**
 * `src/bytetraits.rs`: byte views of strings, byte strings and integers
 * (`AsBytes`, `IntoBytes`) and their ASCII-lowercase forms, which copy only
 * when there is an uppercase letter to change.
 */
module ByteTraits {
  import opened Bytes
  import opened Ascii
  import opened Numbers
  import opened Wrappers
  import H = Helpers

  const U64_BOUND: nat := 0x1_0000_0000_0000_0000
  const I32_MIN: int := -0x8000_0000
  const I32_BOUND: nat := 0x8000_0000

  /** The types `IntoBytes` is implemented for, each with its value. */
  datatype Value =
    | StrRef(text: seq<byte>)
    | SliceRef(slice: seq<byte>)
    | OwnedString(owned: seq<byte>)
    | ByteVec(vec: seq<byte>)
    | Usize(size: nat)
    | U64(unsigned: nat)
    | I32(signed: int)
  {
    /** The range of each integer type; `usize` is taken to be 64 bits wide. */
    predicate Valid() {
      match this
      case Usize(n) => n < U64_BOUND
      case U64(n) => n < U64_BOUND
      case I32(n) => I32_MIN <= n < I32_BOUND
      case _ => true
    }
  }

  /**
   * `AsBytes::into_ascii_lowercase` (for `&str` and `&[u8]`): the bytes
   * lowercased, borrowed exactly when no byte is an uppercase letter.
   */
  function AsAsciiLowercase(s: seq<byte>): (r: H.Cow)
    ensures r.Bytes() == Lowercase(s)
    ensures r.Borrowed? <==> !HasUpper(s)
    ensures r.Borrowed? ==> r.borrowed == s
  {
    if HasUpper(s) then H.Owned(Lowercase(s))
    else
      LowercaseIdentity(s);
      H.Borrowed(s)
  }

  /**
   * `IntoBytes::into_bytes`: string slices and byte slices are borrowed,
   * owned strings and vectors are handed over, integers are rendered in
   * decimal (`to_string`).
   */
  function IntoBytes(v: Value): (r: H.Cow)
    requires v.Valid()
    ensures r.Borrowed? <==> v.StrRef? || v.SliceRef?
    ensures v.StrRef? ==> r.Bytes() == v.text
    ensures v.SliceRef? ==> r.Bytes() == v.slice
    ensures v.OwnedString? ==> r.Bytes() == v.owned
    ensures v.ByteVec? ==> r.Bytes() == v.vec
  {
    match v
    case StrRef(s) => H.Borrowed(s)
    case SliceRef(s) => H.Borrowed(s)
    case OwnedString(s) => H.Owned(s)
    case ByteVec(s) => H.Owned(s)
    case Usize(n) => H.Owned(Decimal(n))
    case U64(n) => H.Owned(Decimal(n))
    case I32(n) => H.Owned(SignedDecimal(n))
  }

  /**
   * `IntoBytes::into_ascii_lowercase`: `into_bytes` lowercased; unchanged
   * (borrowed or owned as before) when there is nothing to lowercase,
   * otherwise owned.
   */
  function IntoAsciiLowercase(v: Value): (r: H.Cow)
    requires v.Valid()
    ensures r.Bytes() == Lowercase(IntoBytes(v).Bytes())
    ensures !HasUpper(IntoBytes(v).Bytes()) <==> r == IntoBytes(v)
    ensures HasUpper(IntoBytes(v).Bytes()) ==> r.Owned?
  {
    var bytes := IntoBytes(v);
    var needsConversion := HasUpper(bytes.Bytes());
    LowercaseIdentity(bytes.Bytes());
    if !needsConversion then bytes
    else match bytes
      case Borrowed(b) => H.Owned(Lowercase(b))
      case Owned(o) => H.Owned(Lowercase(o))
  }

  /** Both lowercasing traits produce the same bytes for the same text. */
  lemma LowercaseTraitsAgree(s: seq<byte>)
    ensures IntoAsciiLowercase(StrRef(s)) == AsAsciiLowercase(s)
    ensures IntoAsciiLowercase(SliceRef(s)) == AsAsciiLowercase(s)
    ensures IntoAsciiLowercase(ByteVec(s)).Bytes() == AsAsciiLowercase(s).Bytes()
  {
  }

  /** Lowercasing twice is lowercasing once; the second pass copies nothing. */
  lemma IntoAsciiLowercaseIdempotent(v: Value)
    requires v.Valid()
    ensures !HasUpper(IntoAsciiLowercase(v).Bytes())
    ensures IntoAsciiLowercase(ByteVec(IntoAsciiLowercase(v).Bytes())) == H.Owned(IntoAsciiLowercase(v).Bytes())
  {
    LowercaseNormal(IntoBytes(v).Bytes());
  }

  /**
   * The rendering of an unsigned integer has no uppercase letter, so
   * lowercasing hands it back as it is, and it parses back to the number.
   */
  lemma UnsignedIntoBytes(v: Value)
    requires v.Valid() && (v.Usize? || v.U64?)
    ensures IntoAsciiLowercase(v) == IntoBytes(v)
    ensures ParseUnsigned(IntoBytes(v).Bytes(), 10, U64_BOUND) == Some(if v.Usize? then v.size else v.unsigned)
  {
    var n := if v.Usize? then v.size else v.unsigned;
    RenderDigits(n, 10);
    RenderParse(n, 10, U64_BOUND);
  }

  /** A negative `i32` renders as '-' and the decimal of its magnitude, which parses back. */
  lemma SignedIntoBytes(n: int)
    requires I32_MIN <= n < I32_BOUND
    ensures IntoAsciiLowercase(I32(n)) == IntoBytes(I32(n))
    ensures n >= 0 ==> ParseUnsigned(IntoBytes(I32(n)).Bytes(), 10, I32_BOUND) == Some(n)
    ensures n < 0 ==> IntoBytes(I32(n)).Bytes()[0] == '-' as int
    ensures n < 0 ==> ParseUnsigned(IntoBytes(I32(n)).Bytes()[1..], 10, I32_BOUND + 1) == Some(-n)
  {
    var m := if n < 0 then -n else n;
    RenderDigits(m, 10);
    RenderParse(m, 10, I32_BOUND + 1);
    if n < 0 {
      var r := SignedDecimal(n);
      assert r[1..] == Decimal(m);
      forall i | 0 <= i < |r| ensures !IsUpper(r[i]) {
        if i > 0 {
          assert r[i] == Decimal(m)[i - 1];
        }
      }
    }
  }
}
