/**
 * `Data<E>` of `src/data/mod.rs`: bytes checked against an encoding when
 * they are constructed, compared and hashed the way the encoding says.
 */
module EncodedData {
  import opened Wrappers
  import opened Bytes
  import opened Utf8
  import opened Numbers
  import opened Encodings
  import opened HttpError

  const U128_LIMIT: nat := 0x1_0000_0000_0000_0000_0000_0000_0000_0000

  /** Bytes tagged with the encoding they conform to. */
  datatype Data = Data(encoding: Encoding, bytes: seq<byte>) {
    /** Every `Data` the source can hold: construction checks the encoding. */
    predicate Valid() { IsValid(encoding, bytes) }
  }

  /** A valid `Data` is UTF-8 wherever equality or hashing decode it. */
  lemma KeysAreUtf8(d: Data)
    requires d.Valid() && d.encoding == HeaderFieldKey
    ensures IsUtf8(d.bytes)
  {
    KeyIsAsciiText(d.bytes);
  }

  /**
   * `Data::<E>::try_from(Vec<u8>)` (the `&str`, `&[u8]` and `String`
   * conversions hand over the same bytes): the bytes, kept unchanged, if the
   * encoding accepts them; `InvalidEncoding` otherwise.
   */
  function TryFrom(e: Encoding, bytes: seq<byte>): (r: Result<Data, HttpError>)
    ensures r.Ok? <==> IsValid(e, bytes)
    ensures r.Ok? ==> r.value.Valid() && r.value.encoding == e && r.value.bytes == bytes
    ensures r.Err? ==> r.error == InvalidEncoding
  {
    if IsValid(e, bytes) then Ok(Data(e, bytes)) else Err(InvalidEncoding)
  }

  /** `Vec::from(data)` undoes `try_from`, and `try_from` rebuilds every valid `Data`. */
  lemma TryFromRoundTrip(e: Encoding, bytes: seq<byte>, d: Data)
    ensures TryFrom(e, bytes).Ok? ==> TryFrom(e, bytes).value.bytes == bytes
    ensures d.Valid() ==> TryFrom(d.encoding, d.bytes) == Ok(d)
  {
  }

  /** `PartialEq for Data<E>`: the encoding's `is_eq`. */
  predicate Eq(a: Data, b: Data)
    requires a.Valid() && b.Valid() && a.encoding == b.encoding
  {
    if a.encoding == HeaderFieldKey then KeysAreUtf8(a); KeysAreUtf8(b); IsEq(a.encoding, a.bytes, b.bytes)
    else IsEq(a.encoding, a.bytes, b.bytes)
  }

  /** `PartialEq<str> for Data<E>` (either order): `is_eq` against the bytes of the text. */
  predicate EqStr(a: Data, s: seq<byte>)
    requires a.Valid() && IsUtf8(s)
  {
    if a.encoding == HeaderFieldKey then KeysAreUtf8(a); IsEq(a.encoding, a.bytes, s)
    else IsEq(a.encoding, a.bytes, s)
  }

  /** `Hash for Data<E>`: the bytes the encoding's `hash` feeds the hasher. */
  function Hash(d: Data): seq<byte>
    requires d.Valid()
  {
    if d.encoding == HeaderFieldKey then KeysAreUtf8(d); HashInput(d.encoding, d.bytes)
    else HashInput(d.encoding, d.bytes)
  }

  /**
   * `Eq` and `Hash` agree, as a `HashMap` key demands: equal values hash
   * alike. Equality is byte equality except for header keys, where it
   * ignores ASCII case.
   */
  lemma EqConsistentWithHash(a: Data, b: Data)
    requires a.Valid() && b.Valid() && a.encoding == b.encoding
    ensures Eq(a, b) <==> Hash(a) == Hash(b)
    ensures a.encoding != HeaderFieldKey ==> (Eq(a, b) <==> a.bytes == b.bytes)
    ensures a.encoding == HeaderFieldKey ==> (Eq(a, b) <==> Ascii.Lowercase(a.bytes) == Ascii.Lowercase(b.bytes))
  {
    if a.encoding == HeaderFieldKey {
      KeysAreUtf8(a);
      KeysAreUtf8(b);
      EqualHashAlike(a.encoding, a.bytes, b.bytes);
    }
  }

  /**
   * `u16::try_from` and `u128::try_from` of `Data<Integer>`: decimal
   * parsing, which fails on empty input and on overflow.
   */
  function ToUnsigned(d: Data, limit: nat): (r: Option<nat>)
    requires d.Valid() && d.encoding == Integer
    ensures r.Some? <==> 0 < |d.bytes| && DigitsValue(d.bytes, 10) < limit
    ensures r.Some? ==> r.value == DigitsValue(d.bytes, 10) < limit
  {
    assert AllRadixDigits(d.bytes, 10);
    assert |d.bytes| > 0 ==> d.bytes[0] != '+' as int;
    ParseUnsigned(d.bytes, 10, limit)
  }

  function ToU16(d: Data): Option<nat>
    requires d.Valid() && d.encoding == Integer
  {
    ToUnsigned(d, U16_LIMIT)
  }

  function ToU128(d: Data): Option<nat>
    requires d.Valid() && d.encoding == Integer
  {
    ToUnsigned(d, U128_LIMIT)
  }

  /** A number rendered in decimal is a valid `Integer` that converts back to it. */
  lemma {:induction false} DecimalRoundTrip(n: nat, limit: nat)
    requires n < limit
    ensures TryFrom(Integer, Decimal(n)).Ok?
    ensures ToUnsigned(TryFrom(Integer, Decimal(n)).value, limit) == Some(n)
  {
    RenderDigits(n, 10);
    RenderValue(n, 10);
  }
}
