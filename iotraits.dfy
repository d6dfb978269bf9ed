/**
 * `BufReadExt` of `src/iotraits.rs`: byte-wise reading helpers over a buffered
 * source, with errors as `std::io` error kinds.
 */
module IoTraits {
  import opened Wrappers
  import opened Bytes
  import opened IoError
  import opened Io

  /** `MatchConfig`: what `read_word`/`read_all` demand of the input. */
  datatype MatchConfig = Required | Trim

  /** `peek_one`: the next byte, not consumed; None at the end of the stream. */
  method PeekOne(src: Source) returns (r: Result<Option<byte>, ErrorKind>)
    ensures src.input != [] ==> r == Ok(Some(src.input[0]))
    ensures src.input == [] ==> r == if src.failure.Some? then Err(src.failure.value) else Ok(None)
  {
    var buf :- src.FillBuf();
    r := Ok(if buf == [] then None else Some(buf[0]));
  }

  /** `read_one`: the next byte, consumed; None at the end of the stream. */
  method ReadOne(src: Source) returns (r: Result<Option<byte>, ErrorKind>)
    modifies src
    ensures old(src.input) != [] ==> r == Ok(Some(old(src.input)[0])) && src.input == old(src.input)[1..]
    ensures old(src.input) == [] ==> src.input == [] && r == if src.failure.Some? then Err(src.failure.value) else Ok(None)
  {
    var buf :- src.FillBuf();
    if buf == [] {
      return Ok(None);
    }
    var next, e := src.ReadExact(1);
    if e.Err? {
      // `fill_buf` saw a byte, so `read_exact` of one byte cannot fail
      assert false;
    }
    r := Ok(Some(next[0]));
  }

  /**
   * `read_word(delimiter, flags)`: consumes up to and including the first
   * occurrence of `delimiter`, or everything up to the end of the stream. With
   * Required a missing delimiter is UnexpectedEof; with Trim a present
   * delimiter is cut off the word.
   */
  method ReadWord(src: Source, delimiter: seq<byte>, flags: seq<MatchConfig>) returns (r: Result<seq<byte>, ErrorKind>)
    modifies src
    ensures var m := FirstEnd(old(src.input), delimiter, 0);
      m.Some? ==>
        && src.input == old(src.input)[m.value..]
        && r == Ok(if Trim in flags then old(src.input)[..m.value - |delimiter|] else old(src.input)[..m.value])
    ensures var m := FirstEnd(old(src.input), delimiter, 0);
      m.None? ==>
        && src.input == []
        && r == if src.failure.Some? then Err(src.failure.value) else if Required in flags then Err(UnexpectedEof) else Ok(old(src.input))
  {
    ghost var input0 := src.input;
    var line: seq<byte> := [];
    while !EndsWith(line, delimiter)
      invariant |line| <= |input0| && line == input0[..|line|] && src.input == input0[|line|..]
      invariant forall k | 0 <= k < |line| :: !EndsAt(input0, k, delimiter)
      decreases |src.input|
    {
      assert !EndsAt(input0, |line|, delimiter);
      var next := ReadOne(src);
      if next.Err? {
        assert line == input0;
        assert FirstEnd(input0, delimiter, 0) == None;
        return Err(next.error);
      }
      if next.value.None? {
        break;
      }
      assert input0[..|line| + 1] == line + [next.value.value];
      line := line + [next.value.value];
    }
    if EndsWith(line, delimiter) {
      assert EndsAt(input0, |line|, delimiter);
      assert FirstEnd(input0, delimiter, 0) == Some(|line|);
    } else {
      assert line == input0;
      assert FirstEnd(input0, delimiter, 0) == None;
    }
    if Required in flags && !EndsWith(line, delimiter) {
      return Err(UnexpectedEof);
    }
    if Trim in flags && EndsWith(line, delimiter) {
      assert line[..|line| - |delimiter|] == input0[..|line| - |delimiter|];
      line := line[..|line| - |delimiter|];
    }
    r := Ok(line);
  }

  /** `read_all(flags)`: everything left; with Required, nothing left is UnexpectedEof. */
  method ReadAll(src: Source, flags: seq<MatchConfig>) returns (r: Result<seq<byte>, ErrorKind>)
    modifies src
    ensures src.input == []
    ensures r == if src.failure.Some? then Err(src.failure.value)
      else if Required in flags && old(src.input) == [] then Err(UnexpectedEof)
      else Ok(old(src.input))
  {
    var buf, e := src.ReadToEnd();
    if e.Err? {
      return Err(e.error);
    }
    if Required in flags && buf == [] {
      return Err(UnexpectedEof);
    }
    r := Ok(buf);
  }
}
