/**
 * `src/percent_coder.rs`: percent-encoding and -decoding (section 2.1 of
 * RFC 3986) from a byte source into a byte sink.
 */
module PercentCoder {
  import opened Wrappers
  import opened Bytes
  import opened Ascii
  import opened IoError
  import opened Io
  import opened Numbers
  import Encodings
  import Helpers

  /** `ALLOWED_CHARS`: the unreserved characters of section 2.3 of RFC 3986, copied as they are. */
  predicate IsAllowed(b: byte) {
    Encodings.Unreserved(b)
  }

  /** `encode_nibble`: an uppercase hex digit (a nibble above 15 is unreachable). */
  function EncodeNibble(nibble: nat): (r: byte)
    requires nibble < 16
    ensures IsHexDigit(r) && !IsLower(r) && DigitValue(r) == nibble
  {
    if nibble <= 9 then nibble + '0' as int else (nibble - 0xA) + 'A' as int
  }

  /** `encode_byte`: '%', then the high and the low nibble. */
  function EncodeByte(b: byte): (r: seq<byte>)
    ensures |r| == 3 && r[0] == '%' as int && IsHexDigit(r[1]) && IsHexDigit(r[2])
    ensures DigitValue(r[1]) * 16 + DigitValue(r[2]) == b
  {
    [ '%' as int, EncodeNibble(b / 16), EncodeNibble(b % 16) ]
  }

  /** What the encoder writes for one byte. */
  function EncodePiece(b: byte): seq<byte> {
    if IsAllowed(b) then [b] else EncodeByte(b)
  }

  /** The whole encoding of `s`, one piece per byte in order. */
  function Encoded(s: seq<byte>): seq<byte> {
    if s == [] then [] else Encoded(s[..|s| - 1]) + EncodePiece(s[|s| - 1])
  }

  /** The number of bytes that need an escape. */
  function EscapedCount(s: seq<byte>): (n: nat)
    ensures n <= |s|
  {
    if s == [] then 0 else EscapedCount(s[..|s| - 1]) + (if IsAllowed(s[|s| - 1]) then 0 else 1)
  }

  /** One byte per allowed byte, three per escaped byte. */
  lemma {:induction false} EncodedLength(s: seq<byte>)
    ensures |Encoded(s)| == |s| + 2 * EscapedCount(s)
  {
    if s != [] {
      EncodedLength(s[..|s| - 1]);
    }
  }

  /** One round of `PercentEncoder::copy`: read one byte, write its piece. */
  method EncodeOne(src: Source, sink: Sink) returns (r: Result<Option<seq<byte>>, Helpers.Error>)
    modifies src, sink
    ensures old(src.input) == [] ==>
      && src.input == [] && sink.output == old(sink.output)
      && r == if src.failure.Some? then Err(Helpers.InOut(src.failure.value)) else Ok(None)
    ensures old(src.input) != [] ==>
      && src.input == old(src.input)[1..]
      && (sink.failure.None? ==>
           var piece := EncodePiece(old(src.input)[0]);
           r == Ok(Some(piece)) && sink.output == old(sink.output) + piece)
      && (sink.failure.Some? ==> r == Err(Helpers.InOut(sink.failure.value)) && sink.output == old(sink.output))
  {
    var next := Helpers.ReadOne(src);
    if next.Err? {
      return Err(next.error);
    }
    if next.value.None? {
      return Ok(None);
    }
    var b := next.value.value;
    var encoded := if IsAllowed(b) then [b] else EncodeByte(b);
    var w := sink.WriteAll(encoded);
    if w.Err? {
      return Err(Helpers.InOut(w.error));
    }
    r := Ok(Some(encoded));
  }

  /** `PercentEncoder::copy`: encodes the whole source into the sink and counts the bytes written. */
  method Encode(src: Source, sink: Sink) returns (r: Result<nat, Helpers.Error>)
    modifies src, sink
    ensures sink.failure.None? || old(src.input) == [] ==>
      && src.input == []
      && sink.output == old(sink.output) + Encoded(old(src.input))
      && r == if src.failure.Some? then Err(Helpers.InOut(src.failure.value)) else Ok(|Encoded(old(src.input))|)
    ensures sink.failure.Some? && old(src.input) != [] ==>
      sink.output == old(sink.output) && r == Err(Helpers.InOut(sink.failure.value))
  {
    ghost var input0 := src.input;
    var written := 0;
    var i := 0;
    while true
      invariant i <= |input0| && src.input == input0[i..]
      invariant sink.output == old(sink.output) + Encoded(input0[..i]) && written == |Encoded(input0[..i])|
      invariant sink.failure.Some? ==> i == 0
      decreases |src.input|
    {
      var next := EncodeOne(src, sink);
      if next.Err? {
        assert input0[..i] == input0 || sink.failure.Some?;
        return Err(next.error);
      }
      if next.value.None? {
        break;
      }
      assert input0[..i + 1][..i] == input0[..i];
      written := written + |next.value.value|;
      i := i + 1;
    }
    assert input0[..i] == input0;
    r := Ok(written);
  }

  /** `decode_nibble`: a hex digit of either case; any other byte is an invalid-input error. */
  function DecodeNibble(b: byte): (r: Result<nat, Helpers.Error>)
    ensures r.Ok? <==> IsHexDigit(b)
    ensures r.Ok? ==> r.value < 16 && r.value == DigitValue(b)
    ensures r.Err? ==> r.error == Helpers.InOut(InvalidInput)
  {
    if '0' as int <= b <= '9' as int then Ok(b - '0' as int)
    else if 'a' as int <= b <= 'f' as int then Ok(b - 'a' as int + 0xA)
    else if 'A' as int <= b <= 'F' as int then Ok(b - 'A' as int + 0xA)
    else Err(Helpers.InOut(InvalidInput))
  }

  /** `decode_buf`: the byte whose high and low nibbles the two digits after '%' give. */
  function DecodeBuf(buf: seq<byte>): (r: Result<byte, Helpers.Error>)
    requires |buf| == 3
    ensures r.Ok? <==> IsHexDigit(buf[1]) && IsHexDigit(buf[2])
    ensures r.Ok? ==> r.value == DigitValue(buf[1]) * 16 + DigitValue(buf[2])
    ensures r.Err? ==> r.error == Helpers.InOut(InvalidInput)
  {
    var high :- DecodeNibble(buf[1]);
    var low :- DecodeNibble(buf[2]);
    Ok(high * 16 + low)
  }

  /** The bytes a decoding produces, and the error that stops it, if any. */
  datatype Decoding = Decoding(out: seq<byte>, error: Option<Helpers.Error>)

  function Prepend(prefix: seq<byte>, d: Decoding): Decoding {
    Decoding(prefix + d.out, d.error)
  }

  /**
   * The first decoded byte of a non-empty `s` and how many bytes it takes:
   * '%' and two hex digits give one byte, any other byte is copied; an escape
   * cut short by the end of the stream fails with the stream's end error
   * `eof`, a non-hex digit with an invalid-input error.
   */
  function DecodeHead(s: seq<byte>, eof: ErrorKind): (r: Result<(byte, nat), Helpers.Error>)
    requires s != []
    ensures r.Ok? ==> r.value.1 <= |s| && r.value.1 == (if s[0] == '%' as int then 3 else 1)
  {
    if s[0] != '%' as int then Ok((s[0], 1))
    else if |s| < 3 then Err(Helpers.InOut(eof))
    else
      var b :- DecodeBuf(s[..3]);
      Ok((b, 3))
  }

  /** Decoding all of `s`, up to the first error. */
  function Decode(s: seq<byte>, eof: ErrorKind): Decoding
    decreases |s|
  {
    if s == [] then Decoding([], None)
    else match DecodeHead(s, eof)
      case Err(e) => Decoding([], Some(e))
      case Ok((b, n)) => Prepend([b], Decode(s[n..], eof))
  }

  /** One round of `PercentDecoder::copy`: peek, read one byte or an escape, decode, write. */
  method DecodeOne(src: Source, sink: Sink) returns (r: Result<Option<byte>, Helpers.Error>)
    modifies src, sink
    ensures old(src.input) == [] ==>
      && src.input == [] && sink.output == old(sink.output)
      && r == if src.failure.Some? then Err(Helpers.InOut(src.failure.value)) else Ok(None)
    ensures old(src.input) != [] && DecodeHead(old(src.input), src.EofError()).Err? ==>
      && sink.output == old(sink.output)
      && r == Err(DecodeHead(old(src.input), src.EofError()).error)
    ensures old(src.input) != [] && DecodeHead(old(src.input), src.EofError()).Ok? ==>
      var (b, n) := DecodeHead(old(src.input), src.EofError()).value;
      && src.input == old(src.input)[n..]
      && (sink.failure.None? ==> r == Ok(Some(b)) && sink.output == old(sink.output) + [b])
      && (sink.failure.Some? ==> r == Err(Helpers.InOut(sink.failure.value)) && sink.output == old(sink.output))
  {
    var peek := Helpers.PeekOne(src);
    if peek.Err? {
      return Err(peek.error);
    }
    if peek.value.None? {
      return Ok(None);
    }
    var byte := peek.value.value;
    var decoded: byte;
    if byte == '%' as int {
      var buf, e := src.ReadExact(3);
      if e.Err? {
        return Err(Helpers.InOut(e.error));
      }
      var v := DecodeBuf(buf);
      if v.Err? {
        return Err(v.error);
      }
      decoded := v.value;
    } else {
      var buf, e := src.ReadExact(1);
      if e.Err? {
        // `peek_one` saw a byte, so `read_exact` of one byte cannot fail
        assert false;
      }
      decoded := buf[0];
    }
    var w := sink.WriteAll([decoded]);
    if w.Err? {
      return Err(Helpers.InOut(w.error));
    }
    r := Ok(Some(decoded));
  }

  /** `PercentDecoder::copy`: decodes the whole source into the sink and counts the bytes written. */
  method DecodeCopy(src: Source, sink: Sink) returns (r: Result<nat, Helpers.Error>)
    modifies src, sink
    ensures var d := Decode(old(src.input), src.EofError());
      sink.failure.None? ==>
        && sink.output == old(sink.output) + d.out
        && r == if d.error.Some? then Err(d.error.value)
                else if src.failure.Some? then Err(Helpers.InOut(src.failure.value))
                else Ok(|d.out|)
    ensures sink.failure.Some? ==> sink.output == old(sink.output) && (r.Ok? ==> old(src.input) == [] && r == Ok(0))
  {
    ghost var input0 := src.input;
    ghost var eof := src.EofError();
    ghost var produced: seq<byte> := [];
    var written := 0;
    while true
      invariant sink.output == old(sink.output) + produced && written == |produced|
      invariant Decode(input0, eof) == Prepend(produced, Decode(src.input, eof))
      invariant sink.failure.Some? ==> produced == [] && src.input == input0
      decreases |src.input|
    {
      ghost var rest := src.input;
      var next := DecodeOne(src, sink);
      if next.Err? {
        return Err(next.error);
      }
      if next.value.None? {
        break;
      }
      var decoded := next.value.value;
      assert produced + [decoded] + Decode(src.input, eof).out == produced + ([decoded] + Decode(src.input, eof).out);
      produced := produced + [decoded];
      written := written + 1;
    }
    r := Ok(written);
  }

  /** Decoding what the encoder wrote gives back the original bytes, with no error. */
  lemma {:induction false} DecodeEncoded(s: seq<byte>, eof: ErrorKind)
    ensures Decode(Encoded(s), eof) == Decoding(s, None)
  {
    EncodedFront(s);
    if s != [] {
      DecodeEncoded(s[1..], eof);
      DecodePiece(s[0], Encoded(s[1..]), eof);
      assert [s[0]] + s[1..] == s;
    }
  }

  /** Decoding undoes one encoded piece. */
  lemma DecodePiece(b: byte, t: seq<byte>, eof: ErrorKind)
    ensures Decode(EncodePiece(b) + t, eof) == Prepend([b], Decode(t, eof))
  {
    var s := EncodePiece(b) + t;
    if IsAllowed(b) {
      assert s[0] == b && s[1..] == t;
    } else {
      assert s[..3] == EncodeByte(b) && s[3..] == t;
    }
  }

  /** The encoding read front to back: the first byte's piece, then the rest. */
  lemma {:induction false} EncodedFront(s: seq<byte>)
    ensures s != [] ==> Encoded(s) == EncodePiece(s[0]) + Encoded(s[1..])
    decreases |s|
  {
    if |s| > 1 {
      EncodedFront(s[..|s| - 1]);
      assert s[..|s| - 1][1..] == s[1..][..|s| - 2];
      assert s[..|s| - 1][0] == s[0];
    } else if |s| == 1 {
      assert s[..0] == [] && s[1..] == [];
    }
  }

  /** The encoder's output is a valid `Uri` and a valid `UriQuery`. */
  lemma {:induction false} EncodedIsValid(s: seq<byte>, cs: Encodings.Charset)
    ensures Encodings.EscapedValid(Encoded(s), cs)
  {
    EncodedFront(s);
    if s != [] {
      var p := EncodePiece(s[0]);
      var t := Encoded(s[1..]);
      EncodedIsValid(s[1..], cs);
      if IsAllowed(s[0]) {
        assert (p + t)[1..] == t;
      } else {
        assert (p + t)[3..] == t;
      }
    }
  }
}
