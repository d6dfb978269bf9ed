# http-tiny, modelled in Dafny

This project models the core of `http-tiny`, a small HTTP/1.x framing library. It covers:

- **Body transfer codecs.** The chunked reader and writer (section 4.1 of RFC 7230) are explicit state machines whose partial line buffers survive a failed stream call. The Content-Length-bounded reader and writer keep a `remaining` counter. The close-delimited reader and writer keep a `completed` flag. Each codec is a class over an abstract timeout-bounded stream.
- **Header framing, in the three generations that coexist in the tree:**
  - `src/header.rs`: a start line plus fields in a BTreeMap with lowercased keys, read from and written to byte streams.
  - `src/header/header.rs`: a header of encoding-checked `Data` values with `HttpError` results, scanned, parsed and written. The builders in `src/header/builders.rs` assemble such headers.
  - `src/request_header.rs`, `src/response_header.rs` and `src/parsers.rs`: String-based parsing and serialising, with the bounded header readers.
- **Byte-level helpers.**
  - `read_until`, `read_word`/`read_all`, and `peek_one`/`read_one`.
  - The slice `Splitter` and `trim`.
  - `collect_min`/`collect_max`/`collect_exact`.
  - ASCII lowercasing and decimal rendering.
  - The read/write `Limiter`.
- **The validation and encoding layer.**
  - The character-class validators of sections 2.1–2.3 and 3.4 of RFC 3986, and the case-insensitive header-field key.
  - The validated `Data` wrapper.
  - Percent encoding and decoding.
  - Request-target path and query parsing (section 5.3 of RFC 7230).
  - Query strings.

Code that updates state in place is modelled as classes and methods, each proved against a specification function. The chunked reader is specified by `ChunkedReaderSpec.Feed` and the writer by `ChunkedWriterSpec.Emission`. Pure code is modelled as functions and lemmas. Every parser is paired with its serialiser by a round-trip lemma. Where the source makes a mistake, the model follows the code, and the mistake is listed under "## Findings".

Some modelling choices:
- The stream traits the codecs use (`ReadableStream`/`WriteableStream`) are not part of this model. Module `Streams` stands in for them. Its contracts allow any progress from nothing to everything requested, and an error at any point.
- The `std::io` sources and sinks used by the later files are modelled by `Io.Source` and `Io.Sink`.
- `io_limiter.rs` has the same logic as `limiter.rs`, so `IoLimiter` is a type alias of `Limiter.Limiter`. Its rows cite `limiter.rs` and name the matching lines of `io_limiter.rs`.

## Model

| member | source | states |
|---|---|---|
| LegacyBody.LegacyBodyReader.constructor | src/legacy_body.rs:10-12 | a new reader has not completed |
| LegacyBody.LegacyBodyReader.Size | src/legacy_body.rs:30-32 | the length of a close-delimited body is never known |
| LegacyBody.LegacyBodyReader.Read | src/legacy_body.rs:15-28 | once completed: Ok(true), stream and buffer untouched; otherwise the stream's bytes land in the free part of the buffer, the end of the stream completes the body and reads as Ok(true), any other error is returned and leaves the body open, a successful read is Ok(false); each outcome is tied to the stream's own result (`lastRead`) |
| LegacyBody.LegacyBodyWriter.constructor | src/legacy_body.rs:44-46 | a new writer has not completed |
| LegacyBody.LegacyBodyWriter.Write | src/legacy_body.rs:49-53 | after finalize: InvalidInput and nothing sent; before: exactly the bytes from the position on that the stream accepted are sent, all of them on Ok, and the result is the stream's own |
| LegacyBody.LegacyBodyWriter.Finalize | src/legacy_body.rs:55-58 | marks the body complete and returns Ok(true) on every call |
| SizedBody.SizedBodyReader.constructor | src/sized_body.rs:11-13 | body size and remaining counter both start at the announced size |
| SizedBody.SizedBodyReader.Size | src/sized_body.rs:30-32 | always the announced size |
| SizedBody.SizedBodyReader.Read | src/sized_body.rs:16-28 | at most min(remaining, free space) bytes are taken, in stream order; remaining drops by exactly the bytes delivered, error or not; everything received never exceeds the announced size; the result is Ok exactly when the stream's read succeeded, an error is the stream's own, and Ok(true) means nothing remains; with nothing remaining the stream is untouched |
| SizedBody.SizedBodyWriter.constructor | src/sized_body.rs:44-46 | the whole announced size is still to write |
| SizedBody.SizedBodyWriter.Write | src/sized_body.rs:49-63 | with nothing remaining: InvalidInput and no I/O; otherwise at most min(remaining, unsent) bytes go out, remaining drops by exactly what was sent, and on Ok the position reaches min(pos + remaining, end of buffer); the result is the stream's own |
| SizedBody.SizedBodyWriter.Finalize | src/sized_body.rs:65-68 | InvalidInput while bytes are missing, Ok(true) when exactly the announced size has been written; no I/O |
| ChunkedBody.ChunkedBodyReader.constructor | src/chunked_body.rs:17-19 | a new reader awaits a size line with an empty 18-byte buffer |
| ChunkedBody.ChunkedBodyReader.Size | src/chunked_body.rs:84-86 | the length of a chunked body is never known in advance |
| ChunkedBody.ChunkedBodyReader.ReceiveChunkSize | src/chunked_body.rs:21-40 | the bytes taken from the stream are exactly what the reader state machine `Feed` consumes from the size-line state; a complete line that is no base-16 `u64` is InvalidData and leaves the state as it was; any other error is the stream's, and keeps the partly filled line buffer |
| ChunkedBody.ChunkedBodyReader.ReceiveChunkPayload | src/chunked_body.rs:42-56 | asks for at most min(remaining, free space) bytes; the bytes taken land unchanged in the buffer after the position and nowhere else; the remaining count drops by their number even when the stream fails, and at zero the reader expects the chunk's CRLF; the result is the stream's |
| ChunkedBody.ChunkedBodyReader.ReceiveChunkTrailer | src/chunked_body.rs:58-69 | the bytes taken are what `Feed` consumes from the trailer state; on Ok the body is done after the last chunk and otherwise the reader awaits the next size line; the result is the stream's, and an error keeps the partial trailer |
| ChunkedBody.ChunkedBodyReader.ReadStep | src/chunked_body.rs:75-80 | one pass of the loop in `read`: the stream bytes taken, fed to `Feed` from the old state, give the new state and exactly the payload bytes written into the buffer, or InvalidData on a malformed size line; every other error is the stream's and never leaves the reader done; Ok(true) exactly when the body was already done, and then nothing changes |
| ChunkedBody.ChunkedBodyReader.Read | src/chunked_body.rs:72-83 | everything taken from the stream, fed to `Feed`, gives the new state and exactly the payload bytes written from the position on, with the rest of the buffer untouched; Ok(false) only with a full buffer; Ok(true) exactly when the reader ends done with room left; an error is the stream's own unless the bytes taken hold a malformed size line (InvalidData); a done reader returns Ok(true) and touches nothing |
| ChunkedBody.ChunkedBodyWriter.constructor | src/chunked_body.rs:106-108 | a new writer waits for data |
| ChunkedBody.ChunkedBodyWriter.InitChunk | src/chunked_body.rs:110-114 | the pending chunk is the rest of the buffer, its size line not yet sent, and what the writer will emit is unchanged |
| ChunkedBody.ChunkedBodyWriter.SendChunkSize | src/chunked_body.rs:116-130 | the bytes sent are a prefix of what `Emission` prescribes from the size-line state, the rest following from the new state; on Ok a zero size leads to the terminating CRLF, any other to the payload; the result is the stream's |
| ChunkedBody.ChunkedBodyWriter.SendChunkPayload | src/chunked_body.rs:132-146 | sends at most min(remaining, unsent) buffer bytes, appended to the stream unchanged; the remaining count drops by what was sent even on error, and at zero the data trailer is next; the result is the stream's |
| ChunkedBody.ChunkedBodyWriter.SendChunkTrailer | src/chunked_body.rs:148-159 | the bytes sent are a prefix of the trailer still due; on Ok the writer is finalized after the last chunk and waiting otherwise; the result is the stream's |
| ChunkedBody.ChunkedBodyWriter.WriteStep | src/chunked_body.rs:164-170 | one pass of the loop in `write_chunk`: what was sent, followed by the emission from the new state, is the emission from the old state; an error is the stream's; a pending payload with no data left sends nothing and keeps its state |
| ChunkedBody.ChunkedBodyWriter.WriteChunk | src/chunked_body.rs:161-173 | the bytes sent, followed by what the new state still emits, are always the emission from the old state; on Ok the writer is finalized and sent exactly that emission; an error is the stream's; a finalized writer sends nothing and returns Ok; a pending payload with no data left can never finish: nothing is sent and the result is an error |
| ChunkedBody.ChunkedBodyWriter.Write | src/chunked_body.rs:176-181 | with data left, from a waiting writer an Ok call sends the size line, the data, the two-byte data trailer and the terminator, and finalizes; a finalized writer sends nothing and returns Ok; with no data left nothing changes, and the result is InvalidInput exactly when finalized |
| ChunkedBody.ChunkedBodyWriter.Finalize | src/chunked_body.rs:183-187 | sends what `Emission` prescribes for no further data (the terminator, after any unfinished chunk); the only Ok result is Ok(true) and then the writer is finalized; an error is the stream's; a finalized writer returns Ok(true) and sends nothing; after an interrupted payload it sends nothing and fails |
| ChunkedBody.PayloadResume | src/chunked_body.rs:132-146 | sending part of a payload leaves to emit the rest of it from the reduced count (or the data trailer once it is all sent), so the total emission is unchanged |
| ChunkedReaderSpec.PayloadFeed | src/chunked_body.rs:42-56 | payload bytes pass through `Feed` unchanged, the remaining count drops by their number, and at zero the reader expects the chunk's CRLF |
| ChunkedReaderSpec.HeaderComplete | src/chunked_body.rs:21-40 | bytes that complete a size line move the reader to what the hexadecimal text before CRLF announces |
| ChunkedReaderSpec.TrailerComplete | src/chunked_body.rs:58-69 | bytes that complete a trailer move the reader to done after the last chunk, otherwise back to a fresh size line |
| ChunkedReaderSpec.SizeLineFeed | src/chunked_body.rs:21-40 | the size line for n (lowercase hexadecimal, then CRLF) takes a fresh reader to n payload bytes, or to the final CRLF for n = 0 |
| ChunkedReaderSpec.CrlfFeed | src/chunked_body.rs:58-69 | a CRLF after a chunk's data returns the reader to a fresh size line, and after the last chunk ends the body |
| ChunkedReaderSpec.LastChunkFeed | src/chunked_body.rs:37 | "0\r\n\r\n" takes a fresh reader to done |
| ChunkedReaderSpec.ChunkFrameFeed | src/chunked_body.rs:72-83 | one chunk framed as in section 4.1 of RFC 7230 delivers its data unchanged and returns the reader to a fresh size line |
| ChunkedReaderSpec.EncodedChunksDecode | src/chunked_body.rs:72-83 | any list of non-empty chunks below 2^64 bytes, framed and terminated as in section 4.1 of RFC 7230, decodes to their concatenation and ends done |
| ChunkedWriterSpec.TerminatorEmission | src/chunked_body.rs:127 | from the size line for no data, the writer emits exactly "0\r\n\r\n" |
| ChunkedWriterSpec.WaitingEmission | src/chunked_body.rs:161-187 | a waiting writer given no data emits only the terminator; given data it emits its size line, the data, the two-byte data trailer and the terminator |
| ChunkedWriterSpec.NulTrailerFeed | src/chunked_body.rs:144 | the reader fed the writer's chunk has delivered the data but is left with a full trailer buffer holding NUL NUL and no CRLF |
| ChunkedWriterSpec.WrittenBodyRejected | src/chunked_body.rs:144 | what one non-empty write emits is not a body the reader accepts: it stalls before the terminator |
| ChunkedWriterSpec.CorrectedWrite | src/chunked_body.rs:132-146 | the emission of one write with CRLF in place of the data trailer: identical except for those two bytes |
| ChunkedWriterSpec.CorrectedWriteDecodes | src/chunked_body.rs:72-83 | with that correction, a fresh reader decodes what one write emits back to the written data and ends done |
| HttpHeader.Word | src/iotraits.rs:60-89 | `read_word(delimiter, [Required, Trim])` over bytes: on Ok the input is the word, the delimiter and the rest, and the delimiter occurs nowhere earlier; the error (the end-of-stream error) exactly when the delimiter occurs nowhere |
| HttpHeader.ReadTrimmed | src/iotraits.rs:60-89 | the trimmed required word read from a source is exactly what `Word` says, and the source keeps exactly the bytes after the delimiter |
| HttpHeader.StartLineOf | src/header.rs:167-183 | a start line read from bytes is the text of its three fields, then CRLF, then the rest; the reason or version field is never empty |
| HttpHeader.LineFieldsOf | src/header.rs:176-181 | a line splits into two words ended by a space and a non-empty remainder that keeps any further spaces; otherwise UnexpectedEof |
| HttpHeader.LeadingSpaces | src/header.rs:247 | the count of leading space bytes: all bytes before it are spaces and the byte at it, if any, is not |
| HttpHeader.StartLine.NewRequest | src/header.rs:99-105 | `new_request`: the method and target as `into_bytes` gives them, the version "HTTP/1.1" |
| HttpHeader.StartLine.NewResponse | src/header.rs:107-115 | `new_response`: version "HTTP/1.1", then the status and reason as `into_bytes` gives them; a status that is not all ASCII digits is refused (the source panics) |
| HttpHeader.StartLine.Read | src/header.rs:167-183 | reads exactly what `StartLineOf` describes, leaves the source after the line, and fails with the same error otherwise |
| HttpHeader.StartLine.ReadFields | src/header.rs:176-181 | the three field reads on the line give exactly `LineFieldsOf` |
| HttpHeader.StartLine.WriteAll | src/header.rs:185-193 | appends field0, space, field1, space, field2 and CRLF; a broken sink fails on the first write and nothing is appended |
| HttpHeader.HeaderFields.constructor | src/header.rs:204-206 | `new`: no fields |
| HttpHeader.HeaderFields.Set | src/header.rs:218-225 | the entries become those with the value inserted under the lowercased name; keys stay ascending and lowercase |
| HttpHeader.HeaderFields.Read | src/header.rs:228-255 | reads exactly what `FieldsOf` describes from an empty map, returns a fresh map holding those entries, keys ascending and lowercase, and leaves the source after the empty line; fails with the same error otherwise |
| HttpHeader.HeaderFields.ReadField | src/header.rs:242-249 | one field line gives exactly `FieldOf`: the key before the first ':', and the non-empty rest without its leading spaces |
| HttpHeader.HeaderFields.WriteAll | src/header.rs:257-266 | appends "key: value" and CRLF per entry in ascending key order, then CRLF; a broken sink fails on the first write with nothing appended |
| HttpHeader.WriteField | src/header.rs:259-262 | appends "key: value" and CRLF for one entry, or fails on the first write with nothing appended |
| HttpHeader.Header.Read | src/header.rs:55-68 | reads exactly what `HeaderOf` describes: the bytes through the first "\r\n\r\n" as start line and fields, leaving the rest in the source; fails with the same error otherwise |
| HttpHeader.Header.WriteAll | src/header.rs:70-75 | appends the start line, the field lines and the empty line, then flushes; a broken sink fails with nothing appended |
| HttpHeader.StoredNormal | src/header.rs:218-225 | `set` keeps the entries strictly ascending with lowercase keys |
| HttpHeader.LookupAfterSet | src/header.rs:209-225 | after `set(name, value)`, `get(other)` is the value exactly when the two names lowercase alike, and is unchanged for every other name |
| HttpHeader.CollectedLookup | src/header.rs:275-284 | `from_iter` builds a map with ascending lowercase keys in which `get(name)` is the value of the last pair whose key lowercases like the name |
| HttpHeader.HeaderFields.FromIter | src/header.rs:275-284 | `from_iter`: the entries are `Collected(pairs)`, ascending with lowercase keys; `CollectedLookup` shows that `get` then gives the last pair's value for each name up to case |
| HttpHeader.StartLineRoundTrip | src/header.rs:167-193 | a start line whose first two fields have no space or CR and whose last is non-empty without CR reads back as the same three fields, leaving what follows |
| HttpHeader.FieldsStopAtEmptyLine | src/header.rs:237-238 | an empty line ends the field read, leaving what follows |
| HttpHeader.FieldWithoutColon | src/header.rs:243 | a field line without ':' fails the whole read with UnexpectedEof |
| HttpHeader.FieldWithoutValue | src/header.rs:244 | a field line with nothing after its ':' fails the whole read with UnexpectedEof |
| HttpHeader.FieldRead | src/header.rs:243-249 | a field line is its key, the first ':', and a value that loses its leading spaces and only those |
| HttpHeader.FieldsRoundTrip | src/header.rs:228-266 | written fields with clean keys and values read back as the entries they were written from, leaving what follows the empty line |
| HttpHeader.HeaderEnd | src/header.rs:55-75 | a written header ends at its first "\r\n\r\n", whatever body follows |
| HttpHeader.HeaderRoundTrip | src/header.rs:55-75 | a written header with clean fields reads back as the same start line and map, leaving exactly the body that followed it |
| HttpHeader.CompleteIffHeaderEnd | src/header.rs:82-87 | `is_complete(buf)` holds exactly when `read` finds a header end in the buffer; without one the read fails with the end-of-stream error |
| DataHeader.Scan | src/header/header.rs:33-37 | `scan` splits the data just after its first "\r\n\r\n", the two parts making up the data; None exactly when there is no "\r\n\r\n" |
| DataHeader.Read | src/header/header.rs:43-46 | `read` copies the stream into the buffer up to and including the first "\r\n\r\n" and returns its length; the whole window and None when the buffer fills or the stream ends first; other errors pass through |
| DataHeader.ParseStatusLine | src/header/header.rs:61-68 | a parsed status line has three valid `Ascii` parts |
| DataHeader.StatusParts | src/header/header.rs:64-68 | three parts convert exactly when each is valid `Ascii`; otherwise InvalidEncoding |
| DataHeader.StatusLineSplit | src/header/header.rs:61-68 | ProtocolViolation exactly when the trimmed line does not split at spaces into three pieces; on success the parts joined by spaces are the trimmed line, the first two without spaces |
| DataHeader.ParseFieldLine | src/header/header.rs:73-78 | a parsed field has a valid key and a valid `Ascii` value |
| DataHeader.FieldParts | src/header/header.rs:75-78 | key and trimmed value convert exactly when both are valid; otherwise InvalidEncoding |
| DataHeader.FieldLineSplit | src/header/header.rs:73-78 | a line without ':' is a ProtocolViolation; otherwise it splits at its first ':' and the value is trimmed |
| DataHeader.InsertEachValid | src/header/header.rs:71-79 | a map built from lines whose parsed fields are valid holds only valid keys and values |
| DataHeader.InsertEachOk | src/header/header.rs:72-79 | the field loop succeeds exactly when every line parses |
| DataHeader.InsertStep | src/header/header.rs:72-78 | one more line inserts its field into the map of the lines before it, or fails with its error |
| DataHeader.InsertStopAtError | src/header/header.rs:74-77 | the first error ends the field loop, whatever lines follow |
| DataHeader.ParseFields | src/header/header.rs:71-79 | the parsed field map holds only valid keys and values |
| DataHeader.FieldsOk | src/header/header.rs:71-79 | the fields parse exactly when every field line does |
| DataHeader.ParsedLines | src/header/header.rs:58-80 | a header parsed from lines has valid parts and fields |
| DataHeader.Parsed | src/header/header.rs:49-81 | a parsed header has valid parts and fields |
| DataHeader.ParsedHead | src/header/header.rs:56-58 | the header part before the first "\r\n\r\n" has at least one line, and parsing is parsing its lines |
| DataHeader.NextOf | src/header/header.rs:72 | the splitter's next line is the next line of the header part |
| DataHeader.InsertFrom | src/header/header.rs:71-79 | the field loop over the splitter returns what `InsertEach` defines on the lines it had left |
| DataHeader.ParseFieldLines | src/header/header.rs:71-79 | the field loop returns the parsed map of the lines left in the splitter |
| DataHeader.Parse | src/header/header.rs:49-81 | `parse` returns exactly what `Parsed` defines |
| DataHeader.WriteStatusLine | src/header/header.rs:91-93 | the status line parts separated by spaces and ended by "\r\n" are appended; a broken sink fails with nothing written |
| DataHeader.WriteField | src/header/header.rs:100 | one field is appended as key, ": ", value and "\r\n" |
| DataHeader.Write | src/header/header.rs:84-108 | `write` appends the serialized header and returns its exact length; a broken sink fails with nothing written |
| DataHeader.ToRequest | src/header/header.rs:175-182 | a request header exactly when the middle part is a valid URI, the header kept whole; otherwise InvalidEncoding |
| DataHeader.ToResponse | src/header/header.rs:206-213 | not all digits is InvalidEncoding; empty or at least 65536 is ProtocolViolation; otherwise the status is the decimal value of the middle part |
| DataHeader.ResponseStatusRoundTrip | src/header/header.rs:206-213 | a status code below 65536 written in decimal converts back to that code |
| DataHeaderRoundTrip.FieldTexts | src/header/header.rs:99-102 | one field line text per key of the iteration order |
| DataHeaderRoundTrip.FieldsBytesJoin | src/header/header.rs:91-106 | the written lines are the status line and the field lines joined by "\r\n" |
| DataHeaderRoundTrip.SerializedLines | src/header/header.rs:84-108 | the written header is its lines joined by "\r\n", then "\r\n\r\n" |
| DataHeaderRoundTrip.StatusLineRoundTrip | src/header/header.rs:61-68 | a writable status line, as written, parses back to itself |
| DataHeaderRoundTrip.FieldLineRoundTrip | src/header/header.rs:73-78 | a valid key with an untrimmable valid value, as written, parses back to that key and value |
| DataHeaderRoundTrip.RestrictStep | src/header/header.rs:75-78 | inserting the last listed field into the map of the others gives the map of all listed fields |
| DataHeaderRoundTrip.InsertEachRestrict | src/header/header.rs:71-79 | lines that parse to the listed fields insert into exactly the map of those fields |
| DataHeaderRoundTrip.FieldsRoundTrip | src/header/header.rs:71-79 | the written field lines parse back to the map of the listed fields |
| DataHeaderRoundTrip.StatusTextClean | src/header/header.rs:91-93 | a writable status line is non-empty and contains no CR |
| DataHeaderRoundTrip.FieldTextClean | src/header/header.rs:100 | a field line with a valid key and a value without CR is non-empty and contains no CR |
| DataHeaderRoundTrip.LinesClean | src/header/header.rs:58 | no written line is empty or contains CR, so splitting at "\r\n" finds exactly those lines |
| DataHeaderRoundTrip.WrittenSplit | src/header/header.rs:56-58 | the written header followed by any body splits at its first "\r\n\r\n" into the joined lines and the body |
| DataHeaderRoundTrip.LinesRoundTrip | src/header/header.rs:58-80 | the written lines parse back to the status line and the listed fields |
| DataHeaderRoundTrip.RestrictAll | src/header/header.rs:99 | the map restricted to all its keys in iteration order is the map |
| DataHeaderRoundTrip.ScanWritten | src/header/header.rs:33-37 | `scan` of a written header followed by a body returns exactly the header and the body |
| DataHeaderRoundTrip.ParseWritten | src/header/header.rs:49-108 | a writable header written by `write` and followed by any body parses back to itself |
| DataHeaderRoundTrip.ParsedIgnoresBody | src/header/header.rs:56-57 | once the data holds "\r\n\r\n", appending bytes does not change what parses |
| DataHeaderRoundTrip.FindPrefix | src/header/header.rs:56 | appending bytes does not move the first "\r\n\r\n" |
| DataHeaderRoundTrip.InsertEachNotTruncated | src/header/header.rs:72-79 | the field loop never reports TruncatedData |
| DataHeaderRoundTrip.TruncatedExactlyWithoutEnd | src/header/header.rs:56-57 | `parse` reports TruncatedData exactly when the data has no "\r\n\r\n" |
| Builders.RequestBuilder.SetMethod | src/header/builders.rs:26-29 | the method is set to the given value and nothing else changes; a valid builder stays valid |
| Builders.RequestBuilder.SetUri | src/header/builders.rs:31-34 | the URI is set and nothing else changes |
| Builders.RequestBuilder.SetVersion | src/header/builders.rs:36-39 | the version is set and nothing else changes |
| Builders.RequestBuilder.Field | src/header/builders.rs:42-45 | the field is inserted into the map as `HashMap::insert` does and the parts stay |
| Builders.RequestBuilder.Build | src/header/builders.rs:48-58 | ApiMisuse exactly when method, URI or version is missing; otherwise the start line is method, URI, version and the fields are kept |
| Builders.NewRequest | src/header/builders.rs:21-23 | a new builder is valid and cannot build yet |
| Builders.ResponseBuilder.SetVersion | src/header/builders.rs:76-79 | the version is set and nothing else changes |
| Builders.ResponseBuilder.SetStatus | src/header/builders.rs:81-84 | the status is set and nothing else changes |
| Builders.ResponseBuilder.SetReason | src/header/builders.rs:86-89 | the reason is set and nothing else changes |
| Builders.ResponseBuilder.Field | src/header/builders.rs:92-95 | the field is inserted into the map and the parts stay |
| Builders.ResponseBuilder.Build | src/header/builders.rs:98-108 | ApiMisuse exactly when version, status or reason is missing; otherwise the start line is version, status, reason and the fields are kept |
| Builders.NewResponse | src/header/builders.rs:71-73 | a new builder is valid and cannot build yet |
| Builders.RequestSettersWin | src/header/builders.rs:26-58 | whatever was set before and in any order, the built start line holds the last value given to each part |
| Builders.ResponseSettersWin | src/header/builders.rs:76-108 | the same for a response: the last status given is the one built |
| Builders.FieldTwice | src/header/builders.rs:42-45 | two fields whose keys differ only in case leave one entry, found by either spelling, with the later value |
| FieldMap.Insert | src/header/builders.rs:43 | the key, lowercased, is in the map afterwards; an existing entry keeps its stored key and takes the new value; a new one stores the key as given; no other entry changes; validity is kept |
| FieldMap.Get | src/header/header.rs:123-125 | a lookup finds a value exactly when a key equal up to case is stored, and the value is valid `Ascii` |
| FieldMap.GetAfterInsert | src/header/header.rs:75-78 | after an insert, a lookup with any spelling of the key finds the new value and every other lookup is unchanged |
| FieldMap.InsertTwice | src/header/header.rs:75-78 | two inserts under keys equal up to case keep the first spelling and the last value |
| Parsers.LeadingSpaceChar | src/parsers.rs:39 | the length of the Unicode whitespace character (one to three UTF-8 bytes) that a text starts with, and 0 exactly when none of its first one, two or three bytes forms one |
| Parsers.TrailingSpaceChar | src/parsers.rs:39 | the same at the end of the text |
| Parsers.TrimStartFrom | src/parsers.rs:39 | `trim_start` stops at a position from which the text starts with no whitespace character |
| Parsers.TrimEndUpto | src/parsers.rs:39 | `trim_end` stops at a position before which the text ends with no whitespace character |
| Parsers.StrTrim | src/parsers.rs:39 | `trim` returns a text no longer than its input that neither starts nor ends with a whitespace character |
| Parsers.TrimEndAsciiSpace | src/parsers.rs:39 | after a visible byte, `trim_end` removes exactly the ASCII whitespace that follows it |
| Parsers.TrimHeaderText | src/parsers.rs:39 | trimming a text that starts and ends with visible bytes and is followed by "\r\n\r\n" gives back the text |
| Parsers.Collect | src/parsers.rs:6-7 | the collecting loop returns exactly the pieces the splitter had left, in order |
| Parsers.Split | src/parsers.rs:3-14 | `split` returns the pieces around the delimiter, limited to `split_limit` pieces; it fails, with InvalidData, exactly when an expected count is given and differs from the number of pieces |
| Parsers.SplitPieces | src/parsers.rs:6-7 | a limited split yields at most the limit; at least one piece when any is allowed; the pieces joined with the delimiter are the input; no piece but the last holds the delimiter, and without a limit none does |
| Parsers.ParseLines | src/parsers.rs:20-24 | `parse_lines` never fails: it yields at least one line, and the lines joined with "\r\n" are the text |
| Parsers.HeaderLineParts | src/parsers.rs:26-29 | `parse_header_line` succeeds exactly when the line holds at least two spaces; the line is then the three parts joined by single spaces, the first two without spaces; otherwise InvalidData |
| Parsers.HeaderLineRoundTrip | src/parsers.rs:26-29 | three parts joined by spaces, the first two without spaces, parse back to those parts |
| Parsers.ThreeHeaderPieces | src/parsers.rs:27 | three pieces around a space rebuild the line, and the first two hold no space |
| Parsers.FewerHeaderPieces | src/parsers.rs:27 | a line with fewer than three pieces holds at most one space |
| Parsers.RequestLineParts | src/parsers.rs:31-34 | `parse_request_line` succeeds exactly when the line contains ": "; the line is then key, ": " and value, and the key contains no ": "; otherwise InvalidData |
| Parsers.RequestLineRoundTrip | src/parsers.rs:31-34 | a key without ": ", then ": ", then any value parses back to that key and value |
| Parsers.InsertLinesOk | src/parsers.rs:49-52 | the field lines build a map exactly when every one of them parses; otherwise the error is InvalidData |
| Parsers.InsertedKeys | src/parsers.rs:48-52 | a key is in the map exactly when some field line has it as its key |
| Parsers.LaterLineWins | src/parsers.rs:51 | `HashMap::insert` overwrites: a key maps to the value of its last line |
| Parsers.InsertAll | src/parsers.rs:48-52 | the insertion loop returns the map of all field lines, or the error of the first line that does not parse |
| Parsers.InsertLinesStep | src/parsers.rs:50-51 | one more parsed line adds its key and value to the map of the lines before it |
| Parsers.InsertLinesPrefixErr | src/parsers.rs:50 | a line that does not parse makes the whole insertion fail with InvalidData |
| Parsers.Parse | src/parsers.rs:36-55 | `parse` returns exactly what `Parsed` defines: UTF-8 check, trim, lines, start line, field map |
| Parsers.ParsedErrors | src/parsers.rs:36-55 | `parse` fails, always with InvalidData, exactly when the bytes are not UTF-8, the first trimmed line has fewer than two spaces, or a later line lacks ": " |
| Parsers.FieldLines | src/request_header.rs:29 | one line `key: value` per key, in the map's iteration order |
| Parsers.InsertFieldLines | src/parsers.rs:48-52 | reading the written field lines back gives the map restricted to the listed keys |
| Parsers.KeysWithoutSeparator | src/parsers.rs:32 | a key without ':' contains no ": ", so its line splits at the right place |
| Parsers.OrderCoversMap | src/request_header.rs:29 | a map restricted to all of its keys in iteration order is the map itself |
| Parsers.JoinIsUtf8 | src/parsers.rs:38 | UTF-8 parts joined by a UTF-8 separator are UTF-8 |
| Parsers.BareWritable | src/request_header.rs:36-44 | a start line with visible ASCII outer parts and a middle part without CR or space, with no fields, is writable |
| Parsers.WritableLines | src/request_header.rs:27-29 | every written line of a writable header is UTF-8 without CR |
| Parsers.HeaderTextUtf8 | src/request_header.rs:27-33 | the written header of a writable header is UTF-8, so `parse` accepts its encoding |
| Parsers.HeaderBodyEnds | src/request_header.rs:27-31 | the written lines joined by "\r\n" are non-empty and start and end with a visible byte |
| Parsers.TrimmedHeaderText | src/parsers.rs:39 | trimming the written header drops exactly the final "\r\n\r\n" |
| Parsers.HeaderTextLines | src/parsers.rs:20-24 | the trimmed written header splits back into exactly the written lines |
| Parsers.ParseHeaderText | src/parsers.rs:36-55 | `parse` of what `into_writer` writes for a writable header returns its start line and its whole field map |
| HeaderStreams.HeaderReader.constructor | src/request_header.rs:70-72 | the buffer holds `max_header_size` zero bytes and the position is 0 |
| HeaderStreams.HeaderReader.Read | src/request_header.rs:75-84 | the bytes received are appended after the position; on success the data is truncated to end at the first "\r\n\r\n" received; the result is the stream's `read_until` result, except that a full buffer without it (NotFound) becomes InvalidData |
| HeaderStreams.HeaderWriter.constructor | src/request_header.rs:33 | the writer holds the serialized bytes, position 0 |
| HeaderStreams.HeaderWriter.Write | src/request_header.rs:96-98 | the connection gains exactly the bytes from the old to the new position; on success everything is written; the result is the stream's |
| HeaderStreams.Serialize | src/request_header.rs:27-31 | the serializing loop builds the start line, one line per field in iteration order, and a final "\r\n" |
| HeaderStreams.SerializeStep | src/request_header.rs:29 | one more field appends its line and "\r\n" to the text of the fields before it |
| RequestHeaders.FromReader | src/request_header.rs:17-22 | the header is what `RequestOf` defines on the received bytes |
| RequestHeaders.RequestOfErrors | src/request_header.rs:17-22 | `from_reader` fails, always with InvalidData, exactly when `parse` fails or the version is neither HTTP/1.0 nor HTTP/1.1; on success the parts are method, URI, version and fields |
| RequestHeaders.IntoWriter | src/request_header.rs:25-34 | the writer holds the serialized header, position 0 |
| RequestHeaders.Default | src/request_header.rs:36-45 | "GET", "/", "HTTP/1.1" and no fields |
| RequestHeaders.RequestRoundTrip | src/request_header.rs:17-34 | a writable header written by `into_writer` reads back as the same header |
| RequestHeaders.DefaultWritable | src/request_header.rs:36-45 | the default header is writable, so it survives the round trip |
| ResponseHeaders.FromReader | src/response_header.rs:12-20 | the header is what `ResponseOf` defines on the received bytes |
| ResponseHeaders.ResponseOfErrors | src/response_header.rs:12-20 | `from_reader` fails, always with InvalidData, exactly when `parse` fails, the version is unsupported or the status code is not a decimal `u16`; on success the parts are version, code value, reason and fields |
| ResponseHeaders.IntoWriter | src/response_header.rs:23-32 | the writer holds the serialized header with the status code in decimal, position 0 |
| ResponseHeaders.Default | src/response_header.rs:34-42 | "HTTP/1.1", 200, "OK" and no fields |
| ResponseHeaders.DecimalIsPlain | src/response_header.rs:25 | a status code in decimal is UTF-8 with no space and no CR |
| ResponseHeaders.ResponseRoundTrip | src/response_header.rs:12-32 | a writable response header written by `into_writer` reads back as the same header |
| ResponseHeaders.DefaultWritable | src/response_header.rs:34-42 | the default response header is writable |
| IoExt.Window | src/helpers/io_ext.rs:21 | the part of the input a buffer of the given capacity can hold: a prefix of length min(capacity, input length) |
| IoExt.UntilEnd | src/helpers/io_ext.rs:31-34 | the first position, after at least one byte, at which the pattern ends; None exactly when it ends nowhere |
| IoExt.ReadUntil | src/helpers/io_ext.rs:14-37 | the buffer's first p bytes are exactly the first p input bytes and p never exceeds the buffer; with a match, Some(first match end) and nothing after it consumed; without one, the whole window is consumed and the result is Ok(None) at a full buffer or end of stream, and any other read error is returned |
| IoExt.Write | src/helpers/io_ext.rs:47-50 | all of the data appended to the sink, or the sink's error with nothing written |
| IoTraits.PeekOne | src/iotraits.rs:43-46 | the next byte without consuming it; None at the end of the stream; the source's error when it fails there |
| IoTraits.ReadOne | src/iotraits.rs:48-58 | the next byte, consuming exactly it; None at the end of the stream with nothing consumed |
| IoTraits.ReadWord | src/iotraits.rs:60-89 | consumes exactly up to the end of the first occurrence of the delimiter (or everything when there is none); the word is that prefix, minus the delimiter with Trim; without a delimiter: UnexpectedEof with Required, else the whole rest, and a failing source's error passes through |
| IoTraits.ReadAll | src/iotraits.rs:91-105 | consumes everything; the rest of the input, UnexpectedEof when it is empty and Required is set, or the source's error |
| Helpers.PeekOne | src/helpers.rs:53-56 | the next byte without consuming it; None at the end of the stream; an I/O failure as `Error::InOut` |
| Helpers.ReadOne | src/helpers.rs:58-68 | the next byte, consuming exactly it; None at the end of the stream |
| Helpers.ReadWord | src/helpers.rs:70-99 | consumes exactly up to the end of the first delimiter (or everything); Trim removes only a present delimiter; a missing delimiter with Required is `Error::Http`; I/O failures are `Error::InOut` |
| Helpers.ReadAll | src/helpers.rs:101-115 | consumes everything; an empty rest with Required is `Error::Http` |
| Helpers.AsAsciiLowercase | src/helpers.rs:130-136 | always the byte-wise ASCII lowercase of the input, borrowed exactly when every byte already is a lowercase letter |
| SliceExt.Splitter.SplitN | src/helpers/slice_ext.rs:67-69 | `splitn_pat(n, pat)` starts a splitter over the data whose remaining pieces are `Pieces(data, pat, n)` |
| SliceExt.Splitter.Split | src/helpers/slice_ext.rs:64-66 | `split_pat(pat)` is `splitn_pat` with `usize::MAX` |
| SliceExt.Splitter.Next | src/helpers/slice_ext.rs:13-43 | `next` yields None exactly when no piece is left, otherwise the first remaining piece, and the rest remain |
| SliceExt.PiecesStep | src/helpers/slice_ext.rs:32-38 | with two or more pieces allowed and the pattern found, the first piece is the data before it and the rest come from after it |
| SliceExt.SplitAround | src/helpers/slice_ext.rs:17-18 | a match splits the data into the part before, the pattern and the part after |
| SliceExt.PiecesWhole | src/helpers/slice_ext.rs:31-39 | with one piece allowed, or the pattern absent, the only piece is the whole data |
| SliceExt.PiecesCount | src/helpers/slice_ext.rs:29-42 | at most n pieces, and at least one when any is allowed |
| SliceExt.PiecesCountStep | src/helpers/slice_ext.rs:38 | one split adds one piece |
| SliceExt.PiecesJoin | src/helpers/slice_ext.rs:13-43 | the pieces joined with the pattern are the data |
| SliceExt.PiecesJoinStep | src/helpers/slice_ext.rs:38 | one split keeps the join equal to the data |
| SliceExt.PiecesOfEmpty | src/helpers/slice_ext.rs:31-39 | empty data yields one empty piece |
| SliceExt.PiecesClean | src/helpers/slice_ext.rs:34-36 | no piece but the last contains the pattern |
| SliceExt.PiecesCleanStep | src/helpers/slice_ext.rs:34-38 | the piece before the first match contains no match |
| SliceExt.PiecesSize | src/helpers/slice_ext.rs:13-43 | a non-empty pattern yields at most one piece more than the data has elements |
| SliceExt.PiecesLastClean | src/helpers/slice_ext.rs:37-39 | when fewer pieces than allowed come out, the last one holds no pattern either |
| SliceExt.PiecesLastStep | src/helpers/slice_ext.rs:38 | one split keeps the last piece clean |
| SliceExt.MatchesByte | src/helpers/slice_ext.rs:35-36 | a one-byte pattern matches at a position exactly when that byte is there |
| SliceExt.FindByteNone | src/helpers/slice_ext.rs:34-36 | a one-byte pattern is not found exactly when the byte does not occur |
| SliceExt.FindAfter | src/helpers/slice_ext.rs:34-36 | a prefix without the pattern's first byte, then the pattern, is found right after the prefix |
| SliceExt.PiecesAfterFirst | src/helpers/slice_ext.rs:32-38 | such a prefix is the first piece |
| SliceExt.PiecesOfJoin | src/helpers/slice_ext.rs:13-43 | parts without the pattern's first byte, joined by the pattern, split back into the same parts |
| SliceExt.LeadingWhitespace | src/helpers/slice_ext.rs:97-98 | the count of leading ASCII whitespace bytes: all before it are whitespace and the next is not |
| SliceExt.TrailingWhitespace | src/helpers/slice_ext.rs:102-103 | the same at the end |
| SliceExt.TrimStart | src/helpers/slice_ext.rs:96-100 | a suffix that starts with no whitespace, only whitespace removed |
| SliceExt.TrimEnd | src/helpers/slice_ext.rs:101-105 | a prefix that ends with no whitespace, only whitespace removed |
| SliceExt.Trim | src/helpers/slice_ext.rs:91-93 | a middle slice, with only whitespace removed at both ends, that neither starts nor ends with whitespace |
| SliceExt.TrimShape | src/helpers/slice_ext.rs:91-93 | `trim_start` then `trim_end` is the slice after the leading whitespace, followed only by whitespace |
| SliceExt.TrimIdempotent | src/helpers/slice_ext.rs:91-93 | trimming twice is trimming once |
| SliceExt.TrimUnchanged | src/helpers/slice_ext.rs:91-93 | a slice without whitespace at either end is unchanged |
| SliceExt.TrimAfterWhitespace | src/helpers/slice_ext.rs:96-100 | leading whitespace before a trimmed slice is removed |
| IterExt.Cursor.Next | src/helpers/iter_ext.rs:22-25 | the iterator yields its first remaining item and drops it, or None once exhausted |
| IterExt.CollectMin | src/helpers/iter_ext.rs:11-17 | Some exactly when at least n items are yielded, and then all of them unchanged and in order |
| IterExt.AtMost | src/helpers/iter_ext.rs:18-32 | the specification of `collect_max`: Some exactly when at most n items are yielded, and then all of them in order |
| IterExt.Exactly | src/helpers/iter_ext.rs:33-39 | the specification of `collect_exact`: Some exactly when exactly n items are yielded, and then all of them in order |
| IterExt.ExactlyIsMinAndMax | src/helpers/iter_ext.rs:33-39 | exactly n is the same as at least n and at most n, with the same items |
| IterExt.CollectMax | src/helpers/iter_ext.rs:18-32 | returns what `AtMost` says for the iterator's items, and pulls all of them when there are at most n, otherwise exactly n + 1 |
| IterExt.CollectExact | src/helpers/iter_ext.rs:33-39 | returns what `Exactly` says for the iterator's items |
| Ascii.Lowercase | src/bytetraits.rs:22-25 | same length; each byte mapped by ASCII lowercasing, so only A-Z change |
| Ascii.LowercaseNormal | src/bytetraits.rs:22-25 | the result has no uppercase letter, and lowercasing twice is lowercasing once |
| Ascii.LowercaseIdentity | src/bytetraits.rs:22-24 | lowercasing changes nothing exactly when there is no uppercase letter |
| ByteTraits.AsAsciiLowercase | src/bytetraits.rs:16-26 | `AsBytes::into_ascii_lowercase`: the byte-wise lowercase, borrowed (and equal to the input) exactly when there is no uppercase letter |
| ByteTraits.IntoBytes | src/bytetraits.rs:68-105 | string and byte-slice references are borrowed, owned strings and vectors handed over, each with its bytes unchanged; integers are owned |
| ByteTraits.IntoAsciiLowercase | src/bytetraits.rs:48-66 | `IntoBytes::into_ascii_lowercase`: the lowercase of `into_bytes`, returned as it was exactly when there is nothing to lowercase, otherwise owned, whichever branch is taken |
| ByteTraits.LowercaseTraitsAgree | src/bytetraits.rs:16-26 | both traits give the same result for the same text |
| ByteTraits.IntoAsciiLowercaseIdempotent | src/bytetraits.rs:48-66 | the result has no uppercase letter, and lowercasing it again hands it back unchanged |
| ByteTraits.UnsignedIntoBytes | src/bytetraits.rs:89-99 | `usize` and `u64` render in decimal: lowercasing leaves them as they are and the digits parse back to the number |
| ByteTraits.SignedIntoBytes | src/bytetraits.rs:101-105 | an `i32` renders in decimal with '-' before the magnitude when negative, and parses back |
| Numbers.DigitValue | src/chunked_body.rs:33 | a hex digit's value is below 16, and a decimal digit's below 10 |
| Numbers.ParseUnsigned | src/chunked_body.rs:33 | `from_str_radix` succeeds exactly when, after one optional '+', the digits are non-empty, all of the radix, and their value fits below the type's limit; it returns that value |
| Numbers.DigitChar | src/chunked_body.rs:118 | a rendered digit is a lowercase hex digit of the given value |
| Numbers.Render | src/chunked_body.rs:118 | a rendered number has at least one digit |
| Numbers.SignedDecimal | src/bytetraits.rs:101-105 | `i32::to_string` is '-' and the magnitude for a negative number, the decimal digits otherwise |
| Numbers.RenderDigits | src/chunked_body.rs:118 | rendered digits are digits of the radix, lowercase, with no sign |
| Numbers.RenderValue | src/chunked_body.rs:118 | the value of the rendered digits is the number |
| Numbers.RenderParse | src/chunked_body.rs:33 | parsing a rendered number below the limit gives it back, so the chunk size line the writer sends reads back |
| Numbers.RenderLength | src/chunked_body.rs:118 | a number below radix^k renders in at most k digits |
| Numbers.HexLengthU64 | src/chunked_body.rs:5 | a `u64` renders in at most 16 hex digits, so a size line with its "\r\n" fits the reader's 18-byte buffer |
| SortedMap.BelowIrreflexive | src/request_target.rs:188 | no key sorts below itself |
| SortedMap.BelowTransitive | src/request_target.rs:188 | the key order is transitive |
| SortedMap.BelowTotal | src/request_target.rs:188 | any two distinct keys are ordered |
| SortedMap.Get | src/request_target.rs:197-199 | `BTreeMap::get` finds a value exactly when an entry has the key, and returns that entry's value |
| SortedMap.InsertSpec | src/request_target.rs:201-203 | `BTreeMap::insert` keeps the keys ascending, sets the key's value, changes no other key, and grows by one entry exactly when the key is new |
| SortedMap.InsertFrontSorted | src/request_target.rs:202 | a key below all others goes first |
| SortedMap.InsertAfterHeadSorted | src/request_target.rs:202 | a key above the first goes into the rest, keeping the order |
| SortedMap.InsertedKeys | src/request_target.rs:202 | every key after an insert is the new key or an old one |
| SortedMap.InsertAbove | src/request_target.rs:202 | a key above all present keys is appended |
| Utf8.AsciiIsUtf8 | src/parsers.rs:38 | every ASCII text is UTF-8 |
| Utf8.ConcatIsUtf8 | src/parsers.rs:38 | two UTF-8 texts written one after the other are UTF-8 |
| Encodings.IsValidEscaped | src/data/encodings.rs:129-168 | the scans of `Uri::is_valid` and `UriQuery::is_valid` accept exactly the texts in which every byte is plain for the charset or starts a '%' escape of two hex digits |
| Encodings.HashInput | src/data/encodings.rs:17-19 | `hash` feeds the bytes unchanged, except for header keys, whose bytes are fed lowercased, with no uppercase letter left |
| Encodings.EqIsEquivalence | src/data/encodings.rs:13-15 | `is_eq` is reflexive, symmetric and transitive for every encoding |
| Encodings.EqualHashAlike | src/data/encodings.rs:76-84 | two texts are `is_eq` exactly when their hash inputs are equal |
| Encodings.KeyEqIgnoresCase | src/data/encodings.rs:76-80 | a header key equals its lowercased self |
| Encodings.LowercaseUtf8 | src/data/encodings.rs:77 | lowercasing UTF-8 keeps it UTF-8, so the unwrapped decoding after it cannot fail |
| Encodings.AsciiIsVisibleOrSpace | src/data/encodings.rs:40-47 | `Ascii::is_valid` accepts exactly the bytes 0x21..0x7E and the five ASCII whitespace bytes |
| Encodings.KeyIsAsciiText | src/data/encodings.rs:63-75 | a valid header key is 7-bit, hence UTF-8, and holds no whitespace, so the unwraps in `is_eq` and `hash` cannot fail |
| Encodings.KeyAcceptsDelete | src/data/encodings.rs:67-72 | as written, the key check accepts the control byte DEL (0x7F), which `Ascii` rejects |
| Encodings.TokenIsKeyWithoutDelete | src/data/encodings.rs:52-75 | a token of section 3.2.6 of RFC 7230 is exactly a key the check accepts that holds no DEL, and is printable ASCII |
| Encodings.QueryIsUri | src/data/encodings.rs:152-168 | every valid query is a valid URI |
| Encodings.QueryExcludesDelimiters | src/data/encodings.rs:152-168 | a valid query holds no '/', '?' or '#' |
| Encodings.TruncatedEscape | src/data/encodings.rs:95-102 | a '%' with fewer than two bytes after it makes the text invalid |
| Encodings.NonHexEscape | src/data/encodings.rs:95-104 | a '%' followed by a byte that is not a hex digit makes the text invalid |
| EncodedData.KeysAreUtf8 | src/data/encodings.rs:77-82 | a valid header key `Data` is UTF-8 |
| EncodedData.TryFrom | src/data/mod.rs:112-120 | the conversion succeeds exactly when the encoding accepts the bytes, keeping them unchanged; otherwise InvalidEncoding |
| EncodedData.TryFromRoundTrip | src/data/mod.rs:112-127 | `Vec::from` returns the converted bytes, and every valid `Data` is rebuilt by `try_from` |
| EncodedData.EqConsistentWithHash | src/data/mod.rs:71-81 | equal values hash alike and values hashing alike are equal; equality is byte equality except for header keys, which compare lowercased |
| EncodedData.ToUnsigned | src/data/mod.rs:128-139 | decimal conversion succeeds exactly when the digits are not empty and their value is below the type's limit, and returns that value |
| EncodedData.DecimalRoundTrip | src/data/mod.rs:128-139 | a number below the limit rendered in decimal is a valid `Integer` that converts back to it |
| PercentCoder.EncodeNibble | src/percent_coder.rs:83-89 | a nibble becomes an uppercase hex digit whose value is the nibble |
| PercentCoder.EncodeByte | src/percent_coder.rs:91-94 | a byte becomes '%' and two hex digits whose value, high nibble first, is the byte |
| PercentCoder.EscapedCount | src/percent_coder.rs:72-75 | the number of bytes outside `ALLOWED_CHARS` is at most the length |
| PercentCoder.EncodedLength | src/percent_coder.rs:72-77 | the encoding is one byte per allowed byte and three per escaped byte |
| PercentCoder.EncodeOne | src/percent_coder.rs:70-77 | one round reads one byte and writes its piece; at the end of the source nothing is written and a source error is reported; a broken sink fails with nothing written |
| PercentCoder.Encode | src/percent_coder.rs:67-80 | the sink gains the encoding of the whole source and the count is its length; a source error is reported after the bytes before it; a broken sink fails with nothing written |
| PercentCoder.DecodeNibble | src/percent_coder.rs:133-140 | a hex digit of either case decodes to its value below 16; any other byte is an invalid-input error |
| PercentCoder.DecodeBuf | src/percent_coder.rs:142-145 | the two digits after '%' decode to the byte they spell, high nibble first; a non-hex digit is an invalid-input error |
| PercentCoder.DecodeHead | src/percent_coder.rs:113-125 | the first decoded byte takes three input bytes after a '%' and one otherwise |
| PercentCoder.DecodeOne | src/percent_coder.rs:113-127 | one round decodes the next byte or escape and writes one byte; an escape cut short fails with the stream's end-of-file error, a bad digit with invalid input |
| PercentCoder.DecodeCopy | src/percent_coder.rs:110-130 | the sink gains every byte decoded before the first error, and the count is their number; a source error is reported; a broken sink writes nothing |
| PercentCoder.DecodeEncoded | src/percent_coder.rs:67-145 | decoding what the encoder wrote gives back the original bytes, with no error |
| PercentCoder.DecodePiece | src/percent_coder.rs:113-127 | decoding undoes one encoded piece |
| PercentCoder.EncodedFront | src/percent_coder.rs:70-77 | the encoding is the first byte's piece followed by the encoding of the rest |
| PercentCoder.EncodedIsValid | src/percent_coder.rs:10 | the encoder's output is a valid `Uri` and a valid `UriQuery` |
| RequestTarget.QueryString.Get | src/request_target.rs:197-199 | `get`: None exactly when no entry has the key, otherwise the value of the entry stored under it; `SetGet` relates it to `set` |
| RequestTarget.QueryString.Set | src/request_target.rs:201-203 | `set`: on sorted fields the keys stay ascending and `get` of the name then finds the new value; `SetGet` adds that every other name is unchanged |
| RequestTarget.SetGet | src/request_target.rs:197-203 | `set` keeps the fields sorted, `get` then finds the new value, and every other name finds what it found before |
| RequestTarget.ScanPathShape | src/request_target.rs:121-133 | every pushed component is non-empty and slash-free, and the pending component holds no slash |
| RequestTarget.ReadPath | src/request_target.rs:116-135 | `RequestTargetPath::read` returns exactly the components the byte loop pushes, consuming the whole source; a source error is reported |
| RequestTarget.WritePath | src/request_target.rs:138-151 | the sink gains "/" for an empty path, otherwise "/" before each component; a broken sink fails with nothing written |
| RequestTarget.ScanWord | src/request_target.rs:131 | slash-free bytes only grow the pending component |
| RequestTarget.ScanSlashed | src/request_target.rs:128-131 | reading "/c1/c2/…/cn" pushes c1 … c(n-1) and leaves cn pending |
| RequestTarget.PathReadDropsLast | src/request_target.rs:116-151 | as written, reading back a written non-empty path loses its last component |
| RequestTarget.PathRoundTrip | src/request_target.rs:116-151 | the corrected reader, which also pushes the pending component at the end, reads back every written path |
| RequestTarget.ReadQuerySorted | src/request_target.rs:206-222 | the read fields stay sorted by key and hold no empty key |
| RequestTarget.ReadPair | src/request_target.rs:211-219 | one round reads up to the next '&', splits at the first '=', and inserts the pair unless its key is empty |
| RequestTarget.ReadQuery | src/request_target.rs:206-222 | `QueryString::read` returns exactly the fields `ReadQueryFrom` defines; a source error is reported |
| RequestTarget.WritePair | src/request_target.rs:227-237 | one pair is written after '?' (the first) or '&', as "k" for an empty value and "k=v" otherwise |
| RequestTarget.WriteQuery | src/request_target.rs:224-240 | the sink gains the pairs in key order, the first after '?' and the rest after '&'; a broken sink fails unless there is nothing to write |
| RequestTarget.SplitPairBytes | src/request_target.rs:215-217 | a written pair splits back into its key and value and holds no '&' |
| RequestTarget.QueryRoundTripFrom | src/request_target.rs:206-240 | reading the written pairs from the k-th on, after the first k, rebuilds all the fields |
| RequestTarget.QueryBytesShape | src/request_target.rs:224-240 | no fields write nothing; otherwise '?', the first pair, then '&' and a pair for each of the others |
| RequestTarget.QueryRoundTrip | src/request_target.rs:206-240 | the written pairs, without the leading '?', read back as the same sorted fields |
| RequestTarget.ReadTarget | src/request_target.rs:57-75 | a leading '/' reads the path up to '?' and the query after it; a leading '*' is the wildcard and consumes nothing; anything else, or nothing, is an invalid-input error |
| RequestTarget.WriteTarget | src/request_target.rs:77-86 | the sink gains "*" for the wildcard, or the path and then the query; a broken sink fails with nothing written |
| RequestTarget.TargetForm | src/request_target.rs:57-86 | a written target starts with '*' or '/', and reads back as the wildcard or as an absolute target |
| RequestTarget.SlashedStart | src/request_target.rs:147 | a written non-empty path starts with '/' |
| Query.Field | src/query_string.rs:26-28 | `field`: None exactly when the key is absent, otherwise a valid `UriQuery` value; `FieldAfterInsert` relates it to `insert` |
| Query.Insert | src/query_string.rs:36-38 | inserting valid query text keeps the map valid and adds exactly the key |
| Query.FieldAfterInsert | src/query_string.rs:26-38 | after `insert`, `field` of the key finds the new value and every other key finds what it found before |
| Query.TrimTrailing | src/query_string.rs:59 | `trim_end_matches` keeps a prefix, removes only the given byte, and leaves none of it at the end |
| Query.ToString | src/query_string.rs:50-62 | the query string starts with '?' |
| Query.ParseField | src/query_string.rs:86-90 | a parsed piece is valid query text on both sides and is "k", "k=v" or "k=" for the key and value it gives; otherwise InvalidEncoding |
| Query.Entries | src/query_string.rs:84-92 | the loop builds a map exactly when every piece parses; the map holds only valid text; otherwise InvalidEncoding |
| Query.EntriesStopAtError | src/query_string.rs:88-89 | the first piece that fails stops the loop, whatever follows |
| Query.TryFromUri | src/query_string.rs:66-94 | `try_from` returns exactly what `Parse` defines on the URI |
| Query.ConcatValid | src/query_string.rs:75 | two valid texts concatenated are valid |
| Query.SplitValid | src/query_string.rs:85-86 | splitting valid text at a plain non-hex byte leaves valid text on both sides |
| Query.PiecesValid | src/query_string.rs:85-86 | every piece of valid text split at '&' or '=' is valid, so the conversions of the pieces cannot fail |
| Query.TrimValid | src/query_string.rs:78 | removing trailing '&'s keeps text valid |
| Query.ParseFieldValid | src/query_string.rs:86-90 | a piece of valid text always parses |
| Query.ParseErrors | src/query_string.rs:66-94 | `try_from` fails, with InvalidEncoding, exactly when the URI has a query part that is not valid query text; on success the map holds valid text |
| Query.QueryPartShape | src/query_string.rs:68-72 | without '?' there is no query; otherwise the query is what follows the first '?', up to the first '#' after it |
| Query.QueryPartAtStart | src/query_string.rs:68-72 | a URI that starts with '?' has the rest up to '#' as its query |
| Query.Pairs | src/query_string.rs:53-56 | one "k" or "k=v" text per key of the iteration order |
| Query.FieldsBytesJoin | src/query_string.rs:53-56 | the written fields are the pair texts joined by '&', then one '&' |
| Query.JoinValid | src/query_string.rs:53-56 | valid texts joined by a plain byte are valid |
| Query.PairParses | src/query_string.rs:86-90 | a non-empty key without '=' and its value, as written, parse back to that key and value |
| Query.MapOfOrderStep | src/query_string.rs:89 | the map of all listed keys is the map of all but the last, updated with the last |
| Query.EntriesStep | src/query_string.rs:88-89 | one more parsed piece inserts its key and value |
| Query.EntriesOfPairs | src/query_string.rs:84-92 | the written pair texts parse back to the map of the listed keys |
| Query.PairTextValid | src/query_string.rs:53-56 | a pair text of valid key and value without '&' is valid, non-empty and without '&' |
| Query.PairsText | src/query_string.rs:53-56 | every pair text of a valid query string is valid, non-empty and without '&' |
| Query.TrimJoined | src/query_string.rs:59-60 | trimming removes exactly the final '&' after a last pair that is non-empty and holds no '&' |
| Query.ToStringJoined | src/query_string.rs:50-62 | a non-empty query string is '?' and the pair texts joined by '&' |
| Query.PiecesOfAmpersandJoin | src/query_string.rs:85 | texts without '&' joined by '&' split back into the same texts |
| Query.ParseJoined | src/query_string.rs:66-94 | '?' and the pair texts joined by '&' parse back to the map of the listed keys |
| Query.QueryStringRoundTrip | src/query_string.rs:50-94 | `to_string` of a query string with non-empty keys without '=' or '&', and values without '&', is a valid URI that parses back to the same query string |
| Limiter.Limiter.constructor | src/limiter.rs:21-23 | both counters start at their maximum, nothing read or written yet; `IoLimiter` in src/io_limiter.rs lines 21-23 is the same |
| Limiter.Limiter.Read | src/limiter.rs:34-42 | the inner reader is asked for at most min(read_left, buffer length) bytes; read_left drops by exactly the bytes returned, so the total read through `read` never exceeds read_max (the `BufRead` path of `fill_buf`/`consume` bypasses the limit, as in the source); an error is the inner reader's, raised only when a non-empty read finds its input exhausted, and leaves both counters unchanged; with read_left at 0 every read is Ok(0), the end of the stream; `IoLimiter` in src/io_limiter.rs lines 31-39 is the same |
| Limiter.Limiter.FillBuf | src/limiter.rs:48-50 | passes the inner reader's buffered bytes (or its error) through, counters untouched; `IoLimiter` in src/io_limiter.rs lines 42-44 is the same |
| Limiter.Limiter.Consume | src/limiter.rs:51-53 | passes through: the inner reader drops exactly `amt` bytes, counters untouched; `IoLimiter` in src/io_limiter.rs lines 45-47 is the same |
| Limiter.Limiter.Write | src/limiter.rs:59-67 | the inner writer is offered at most min(write_left, buffer length) bytes; write_left drops by exactly the bytes taken, which are a prefix of the buffer; an error is the inner writer's and leaves the counters and the output unchanged; a working inner writer takes exactly min(write_left, buffer length) bytes; `IoLimiter` in src/io_limiter.rs lines 50-58 is the same |
| Limiter.Limiter.Flush | src/limiter.rs:68-70 | passes the inner writer's flush result through; `IoLimiter` in src/io_limiter.rs lines 59-61 is the same |

## Left out

- Timeouts and deadlines (`Instant::now() + timeout`, `time_remaining`) depend on the wall clock. The stream classes instead count the operations that still complete before the deadline (`budget`). In the model every codec loop ends because each successful stream call spends one unit of it, including a write of zero bytes. The model proves nothing about time.
- ChunkedBody.ChunkedBodyWriter.Finalize: after a payload write was interrupted (state `Payload(k)`, k > 0), `finalize` calls `write_chunk` with an empty buffer, and each pass of its loop sends zero bytes and sets `Payload(k)` again (src/chunked_body.rs lines 132-146 and 161-173). Nothing in that loop checks the deadline itself. The source's `WriteableStream::write` is not part of this model, so whether a zero-byte write ever fails is not known. The model's stream times out once its budget is spent. Its contract therefore states that this call sends nothing and returns an error; with a stream that accepts zero-byte writes forever, the source's loop would not end.
- The codecs' stream traits (`ReadableStream`, `WriteableStream`, `ReadableBody`, `WriteableBody`) are not part of this model. `Streams` states only their progress-or-error contract. Its bodies are one stand-in transport and are not a model of any source.
- `Io.Source` and `Io.Sink` stand in for `std::io` readers and writers. A sink either accepts every write or fails on every write with one fixed error. Later writes in a sequence therefore cannot fail once the first has succeeded, and the model checks only the first. A sink that fails partway through a header is not modelled.
- UTF-8 decoding (`String::from_utf8`, `str::from_utf8`) is the validity predicate `Utf8.IsUtf8`; no decoder is modelled. The UTF-8 check on the chunk-size line is folded into hex parsing, since any non-ASCII byte already fails there.
- HashMap iteration order is an explicit `order` parameter: any duplicate-free listing of the map's keys. Serialisers (`into_writer`, `Header::write`, `to_string`) are proved for every such order, and no particular order is asserted. `std::hash::Hasher` internals are left out: `EncodedData.Hash` is the byte string a key feeds to the hasher.
- Rust integer widths appear only where the source checks them: the u64 chunk size, the u16 status and the u128/u16 conversions, including their overflow errors. Buffer positions are unbounded `nat`s.
- `src/owned_ref.rs` is unsafe self-referential pinning with no sequential behaviour to state.
- `src/convenience/` is left out: stdin I/O plus one-line delegation to `HeaderStartLine`/`HeaderFields`, which are modelled. Its constants are literals where the model needs them.
- `src/error.rs`, `src/lib.rs`, `src/header/mod.rs` and `src/convenience/mod.rs` hold declarations only. Error kinds are the datatypes `IoError.ErrorKind` and `HttpError.HttpError`.
- Not modelled: the `Debug` implementations of `RequestHeader` and `ResponseHeader` (`src/request_header.rs:46-58`, `src/response_header.rs:43-55`), and the derived `Debug`/`Clone` elsewhere. They are formatting only.
- Left out of `src/header/header.rs`:
  - `to_vec` (lines 110-114) is `write` into a vector, which cannot fail, so it is `DataHeader.Serialized` itself.
  - The accessors `method`/`uri`/`version`/`status`/`reason`/`field`/`fields` (lines 123-128 and 161-203) return stored values.
  - The `AsRef`/`From` conversions (lines 140-149) are left out for the same reason.
- `HttpHeader.HeaderFields.Get` is a plain lookup with no contract of its own. What `get` promises is stated by `HttpHeader.LookupAfterSet` and `HttpHeader.CollectedLookup`.
- `QueryString::field_mut`/`fields_mut` (`src/query_string.rs:30-34`, `44-47`) hand out mutable borrows, which the model has no counterpart for. Updates go through `insert`.
- Left out of `src/data/mod.rs`:
  - `try_from_superset`/`from_subset` (lines 34-42) re-validate or re-tag the same bytes.
  - `Deref`, `AsRef` and `Display` return the stored bytes.
  - The `&str`, `&[u8]` and `String` conversions reduce to the `Vec<u8>` one, because text is bytes in this model. The single constructor `EncodedData.TryFrom` covers all of them.
- Left out of `src/request_target.rs`:
  - `RequestTarget::new_wildcard`/`new_absolute` and `RequestTargetPath::new`/`push` are constructors of the datatype values.
  - The `FromIterator`/`IntoIterator`/`Deref` conversions (lines 153-168 and 242-264) convert between the same sequences and maps.
- `percent_coder.rs`'s `Buf` (lines 12-54) is a fixed 1- or 3-byte array. The model uses byte sequences of that length.
- `Encodings.KeyValid` follows the code: byte 127 (DEL) passes the key check, because the check rejects only bytes above 127 and below 32. `Encodings.KeyAcceptsDelete` states this. RFC 7230's token grammar excludes DEL. The rest of the model uses the check as written.
- `u64::from_str_radix` accepts one leading '+'. `Numbers.ParseUnsigned` does the same, so a chunk-size line "+a" reads as 10.

## Findings

| source | as written | input that shows it | evidently intended | confidence | as-written member | corrected member |
|---|---|---|---|---|---|---|
| src/chunked_body.rs:144 | after a data chunk's payload, the writer sends the chunk trailer `[0, 0]` (two NUL bytes) | any non-empty write, e.g. the single byte "a": the writer emits "1\r\na\0\0" followed by "0\r\n\r\n", and a chunked reader stalls on the NUL trailer | the CRLF that section 4.1 of RFC 7230 requires after chunk data, as the final trailer at line 127 already sends | not executed | ChunkedWriterSpec.WrittenBodyRejected | ChunkedWriterSpec.CorrectedWriteDecodes |
| src/request_target.rs:116-135 | a path component is pushed only when a '/' follows it, so the bytes after the last '/' are dropped | "/a" reads as the empty path, which is written back as "/" | the component list ["a"], as the type's doc comment (lines 93-96) describes, where "/test//path" gives ["test", "path"], so that reading what `write_all` wrote returns the same path | not executed | RequestTarget.PathReadDropsLast | RequestTarget.PathRoundTrip |
