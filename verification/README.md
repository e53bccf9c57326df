# Lundi

A Dafny model of the protocol engine of Lundi, a header-only HTTP/1.1 and WebSocket server, and proofs about it.
`dafny verify dfyconfig.toml` checks everything.

What the code changes step by step is modelled by classes, arrays and loops (`WriteBuffer`, `ReadBuffer`, `Hasher`,
`FastItoa`, `ChunkedWriter`, `WebSocket.Connection`, `Router.Router`, `DateCache.DateCache`, and methods with loops
for the parsers). Each of those methods is tied to a function of its inputs or of the old state; the theorems are
about these functions. Text is a `string` of bytes, binary data a sequence of integers below 256.

| modules | subject |
|---|---|
| Prelude, Text, Bytes, Numerals | searching, big-endian numbers, decimal and hexadecimal numerals, `fast_itoa` |
| HeaderScan, Buffers | the block-wise search for the blank line, the read and write buffers |
| UrlCoding, HeaderBlock, RequestHead | percent decoding, query strings, header fields, the request head |
| Response, ReplyStream | serializing a response, and finding its end again |
| KeepAlive, Fragmentation, Connection, Pipelining | the keep-alive loop over a socket that delivers pieces of any size |
| OversizeHeads, Independence | heads beyond the limit, when the cutting into reads matters |
| ReadMemory, MemoryLimits | how large the read buffer gets, and under which settings that is bounded |
| ParsingLaws, ConnectionLaws, FrameLaws | what the small steps do to any text, what the fields of a request decide, frames byte by byte |
| Examples, Sha1Example | the repository's own unit-test examples and those of the standards |
| Chunked, Multipart, MultipartPrinting | chunked responses, `multipart/form-data` |
| Sha1, Base64, Frames, WebSocket | the handshake key, frames, and the reading loop of a session |
| Router, RoutePrinting | patterns, paths, matching with rollback, first-match lookup |
| DateCache, DateProtocol, AcceptLoop | the two concurrent protocols, as interleaved steps |

## Main results

- **Fragmentation.** `KeepAlive.Reference` parses a whole stream recursively, without buffers. The connection loop
  (`Connection.HandleConnection`) dispatches exactly that for every way of cutting the stream into reads, if and only
  if every head that is answered ends within the header limit. On any stream it dispatches a prefix of it, and at
  least the requests in front of the first head beyond the limit. Two ways of cutting can differ only by such a head;
  `Independence.FragmentationIndependence` says exactly for which streams all of them dispatch the same.
- **Memory.** The read buffer, 8192 bytes at first, stays below twice the larger of the header limit plus one read and
  the longest request, for all streams and schedules. Which settings bound it whatever is sent is known exactly
  (`MemoryLimits.MemoryBounded`). What `HandleConnection` reports as its final capacity is the peak of these theorems.
- **A whole conversation.** For printed requests, any fragmentation and honest response headers, a client that only
  looks for blank lines, `Content-Length` and the status code gets back one response per request, with its code, in
  order, with nothing left over. What becomes of a request is told by its fields and the settings alone: handed off,
  refused, given up, dispatched, and whether the connection goes on (`ConnectionLaws`).
- **WebSocket.** `read` in a loop over any input, however its frames are encoded, delivers the data frames
  before the first frame that ends the session, with one pong per ping and the right farewell. Streaming SHA-1 is
  one-shot SHA-1 for all splits.
- **Printers and parsers** invert each other: heads, queries, multipart forms, chunks, frames, Base64, numerals,
  route patterns and paths.
- **Router.** Lookup is a declarative first match on at most 16 path pieces, blind to superfluous slashes.
- **Concurrency.** A date read while fewer than two updates have begun is never torn, and with two it can be.
  Connection counters are exact in every run; no worker ever holds more than one connection above the peak average,
  and without departures the connections go round in turn.

## Where the code differs from its comments or from a standard

- `read_headers` promises to stop when the limit is exceeded. It does when the bytes come one at a time, but a head
  longer than `max_header_size` is accepted when its end arrives in the read that crosses the limit
  (`OversizeHeads.OversizeHeadAccepted`: one schedule accepts, another refuses). `OversizeHeads.HeadAcceptable` is the
  exact condition for one head, `Independence.FragmentationIndependence` for a whole stream to be dispatched in the
  same way by all schedules.
- The two size limits do not bound the memory of a connection by themselves: a head may be as long as the buffer, and
  one byte of body behind it then doubles the buffer, request after request (`MemoryLimits.KeepsDoubling`). With some
  path left to ordinary handlers it is bounded if and only if heads or bodies are not allowed at all, or the number of
  requests per connection is limited (`MemoryLimits.MemoryBounded`).
- `serialize_into` recognises a custom length only as `Content-Length` or `content-length`. With any other spelling
  it adds a second length (`ReplyStream.LengthFieldsSent`), and a client that believes the first goes wrong when the
  two differ (`ReplyStream.MisspeltLength` is such a response, `ReplyStream.SelfDelimiting` the exact condition).
- `router::resolve` documents `params` as cleared; it clears them only when some route has the method
  (`Router.ClearedExactly`).
- `split_path_sv` drops everything behind the 16th piece, so longer paths match patterns of 16 segments
  (`Router.DepthLimit`). A pattern itself may have more segments, and then never matches.
- `parse_multipart` looks for `filename="` anywhere. A part name ending in `filename=` makes it read the file name
  `; filename=` (`MultipartPrinting.FileFoundExactly`). It looks for the content type anywhere, too: a name or file name
  with `Content-Type: ` in it makes the rest of the disposition line the type (`MultipartPrinting.TypeFoundExactly`;
  `MultipartPrinting.HeadersReadExactly` is the condition for all three values). A delimiter directly behind the blank
  line of a part makes the content length wrap around, and the whole rest of the body is taken
  (`MultipartPrinting.NoLineBreakTakesRest`, and `Multipart.ContentInFront` for exactly when the content is what stands
  in front of the delimiter).
- The constant in `ws_accept_key` is not the one of section 1.3 of RFC 6455. The model takes any constant.
- The comments on `chunked_writer` say that the server calls `finish`; it does not. A handler that does not call it
  leaves an incomplete body (`Chunked.NeverFinished`; `Chunked.CompleteExactly` says exactly when a body is complete).

## Model

| member | source | states |
|---|---|---|
| HeaderScan.CrMaskBits | include/lundi/engine/header_scan.hpp:34-36 | bit k of the mask is set exactly when character k of the block is a CR |
| HeaderScan.CtzFromLowest | include/lundi/engine/header_scan.hpp:40 | counting trailing zeros ends at a set bit with only clear bits below |
| HeaderScan.ClearLowest | include/lundi/engine/header_scan.hpp:47 | `mask & (mask - 1)` removes the lowest set bit and no other, so the inner loop ends |
| HeaderScan.ScanBlock | include/lundi/engine/header_scan.hpp:34-48 | the first blank line that starts in the 16-byte block, or none, even when it ends behind the block |
| HeaderScan.FindHeaderEnd | include/lundi/engine/header_scan.hpp:16-61 | the first CR LF CR LF at or after `max(0, scan_start - 3)`, plus 4; 0 exactly when there is none |
| Text.HeaderEndPrefix | include/lundi/server.hpp:458-477 | the head end found in a prefix is the head end of every continuation, and a head that ends inside the prefix is found there |
| Buffers.WriteBuffer.EnsureSpace | include/lundi/engine/buffer.hpp:116-122 | room for the demand, same contents, capacity by the growth policy |
| Buffers.WriteBuffer.AppendAll | include/lundi/engine/buffer.hpp:32-37 | the contents grow by the appended text and capacity follows the growth policy |
| Buffers.WriteBuffer.PushOne | include/lundi/engine/buffer.hpp:52-56 | the contents grow by one character |
| Buffers.WriteBuffer.ConsumeFront | include/lundi/engine/buffer.hpp:100-111 | exactly the first n characters go, all of them when there are fewer |
| Buffers.WriteBuffer.Reset | include/lundi/engine/buffer.hpp:91-94 | empty afterwards, memory kept |
| Buffers.GrownIsLeast | include/lundi/engine/buffer.hpp:116-122 | the new capacity is the least with enough room that is the old one or at least twice the old one |
| Buffers.GrowthCopies | include/lundi/engine/buffer.hpp:120 | a resize copies the whole old block |
| Buffers.DroppedRest | include/lundi/engine/buffer.hpp:100-111 | what is consumed and what is left make up the whole |
| Buffers.StepInvariant | include/lundi/engine/buffer.hpp:32-122 | one operation keeps the amortisation invariant and does what it does to a plain sequence |
| Buffers.RunInvariant | include/lundi/engine/buffer.hpp:32-122 | so does every run, from any state that satisfies it |
| Buffers.RunIsPlainAndAmortised | include/lundi/engine/buffer.hpp:25-122 | from a new buffer: the plain sequence, copied capacity at most final minus initial, capacity at most twice the largest demand |
| Buffers.MoveFront | include/lundi/engine/buffer.hpp:201 | the overlapping move to the front keeps the moved text |
| Buffers.ReadBuffer.EnsureWrite | include/lundi/engine/buffer.hpp:163-169 | room for n more, same contents, capacity by the growth policy |
| Buffers.ReadBuffer.Receive | include/lundi/engine/buffer.hpp:157-160 | received text is appended |
| Buffers.ReadBuffer.ConsumeFront | include/lundi/engine/buffer.hpp:193-204 | the first n characters go, the leftover stays in order |
| Buffers.ReadBuffer.Reset | include/lundi/engine/buffer.hpp:207-210 | empty afterwards, memory kept |
| Buffers.ReadBuffer.FindEnd | include/lundi/engine/buffer.hpp:218-239 | agrees with the block scan from the start: end of the first head or none |
| Numerals.FastItoa.Format | include/lundi/engine/fast_itoa.hpp:17-35 | for every 64-bit value the numeral stands in front of the NUL, with its length, inside the 21 bytes |
| Numerals.DigitsValue | include/lundi/engine/fast_itoa.hpp:27-31 | the digits read back give the number |
| Numerals.DigitsLength | include/lundi/engine/fast_itoa.hpp:27-33 | k digits are enough exactly below base^k |
| Numerals.NoLeadingZero | include/lundi/engine/fast_itoa.hpp:21-31 | no leading zero unless the number is 0 |
| Numerals.TwentyDigits | include/lundi/engine/fast_itoa.hpp:44 | 20 digits are enough for 64 bits |
| Numerals.ParseU64Digits | include/lundi/server.hpp:744-745 | `from_chars` reads a printed 64-bit number back whatever non-digit follows |
| Numerals.ParseIntText | include/lundi/router.hpp:165-172 | `from_chars` reads every printed 32-bit integer back, using up the whole text |
| Numerals.IntRange | include/lundi/router.hpp:165-166 | the range of an `int` |
| Numerals.ParseIntExactly | include/lundi/router.hpp:165-172 | a text is read as an `int` if and only if it is an optional minus, zeros and the numeral of the value, nothing else, and in range |
| Numerals.ParseU64Exactly | include/lundi/server.hpp:744-747 | a text is read as a `size_t` if and only if such a numeral below 2^64 starts it and no digit follows |
| UrlCoding.UrlDecode | include/lundi/core.hpp:139-164 | the loop computes the recursive decoding, including incomplete and invalid escapes |
| UrlCoding.DecodedUnchanged | include/lundi/core.hpp:139-164 | decoding changes nothing if and only if there is no `+` and no valid escape |
| UrlCoding.NothingToDecode | include/lundi/core.hpp:938-949 | the fast path without `%` and `+` agrees with the decoder |
| ParsingLaws.EscapeExactly | include/lundi/core.hpp:122-155 | an escape is a percent sign and two hexadecimal digits of either case |
| ParsingLaws.PlusIsSpace | include/lundi/core.hpp:156-160 | a plus is a space |
| ParsingLaws.OthersStay | include/lundi/core.hpp:161 | any other character that starts no escape stays |
| ParsingLaws.LowerEscape | include/lundi/core.hpp:145-154 | an escape in lower case is the byte of its number |
| ParsingLaws.UpperHex | include/lundi/core.hpp:128-131 | the upper-case hexadecimal digits |
| ParsingLaws.DigitsSpelled | include/lundi/engine/fast_itoa.hpp:29 | how each digit is spelled |
| ParsingLaws.EmptyPiece | include/lundi/core.hpp:184-203 | empty pieces of a query are nothing |
| ParsingLaws.NameOnly | include/lundi/core.hpp:193-196 | a piece without an equals sign is a name with an empty value |
| ParsingLaws.FirstEquals | include/lundi/core.hpp:188-192 | only the first equals sign separates |
| Examples.QueryTests | tests/test_query_string.cpp:35-54 | a flag, a value with an equals sign, a value with a plus |
| UrlCoding.DecodeEncoded | include/lundi/core.hpp:139-164 | decoding undoes percent encoding for every byte string |
| UrlCoding.ParseQueryString | include/lundi/core.hpp:179-205 | the loop computes the recursive list of decoded pairs, empty pieces skipped |
| UrlCoding.QueryRoundTrip | include/lundi/core.hpp:179-205 | every list of byte-string pairs, empty names and values included, is parsed back in order |
| HeaderBlock.LookupIsFirst | include/lundi/core.hpp:577-600 | lookup gives the first field whose name agrees up to letter case |
| HeaderBlock.LookupConcat | include/lundi/core.hpp:577-600 | fields behind a match are never looked at |
| ParsingLaws.NotThere | include/lundi/core.hpp:577-600 | a name that no field has is not found |
| ParsingLaws.SameLetter | include/lundi/core.hpp:586-587 | which characters differ in case only |
| ParsingLaws.BlanksDropped | include/lundi/core.hpp:967-970 | exactly the spaces and tabs in front of a value are dropped |
| ParsingLaws.NoColon | include/lundi/core.hpp:963-965 | a line without a colon is no field |
| ParsingLaws.WhereFieldsEnd | include/lundi/core.hpp:956-960 | an unfinished line is no field, and an empty line ends the fields |
| ParsingLaws.TwoBlanksNeeded | include/lundi/core.hpp:927-929 | with fewer than two blanks there is no request |
| ParsingLaws.PlainTarget | include/lundi/core.hpp:944-950 | a target without a question mark, whatever version follows |
| ParsingLaws.TargetWithQuery | include/lundi/core.hpp:934-943 | the first question mark separates path and query |
| ParsingLaws.NoFirstLine | include/lundi/core.hpp:920-924 | a head without a finished first line is no request |
| HeaderBlock.FindHeaderCi | include/lundi/core.hpp:577-600 | the two nested loops compute that lookup |
| HeaderBlock.BlockEnd | include/lundi/core.hpp:953-975 | a block of lines ends at its own blank line whatever follows |
| HeaderBlock.BlockFields | include/lundi/core.hpp:953-975 | the fields of a block are the fields of its lines, in order |
| HeaderBlock.FieldRoundTrip | include/lundi/core.hpp:962-973 | a printed field is read back, leading blanks of the value dropped |
| HeaderBlock.FieldLinesRoundTrip | include/lundi/core.hpp:953-975 | so is a list of fields |
| HeaderBlock.TrimmedLookup | include/lundi/core.hpp:968-970 | dropping leading blanks commutes with lookup |
| RequestHead.DecodePath | include/lundi/core.hpp:938-949 | with or without the fast path the path is the decoded target |
| RequestHead.ParseRequestLine | include/lundi/core.hpp:926-951 | the parsed line, with its error case of fewer than two blanks |
| RequestHead.StoreField | include/lundi/core.hpp:963-973 | lines without a colon and fields beyond the 32nd are dropped |
| ParsingLaws.FirstThirtyTwo | include/lundi/core.hpp:965-972 | the fields kept are the first ones, at most 32 |
| RequestHead.ParseFields | include/lundi/core.hpp:953-975 | the loop over positions gives the first 32 fields up to the blank line |
| RequestHead.ParseHeaders | include/lundi/core.hpp:916-978 | the whole parser computes the head as a function of the text |
| RequestHead.LineRoundTrip | include/lundi/core.hpp:926-951 | a printed request line gives back method, path, raw target and query pairs |
| RequestHead.HeadOfBlock | include/lundi/core.hpp:916-978 | the head of a block of lines, line by line |
| RequestHead.HeadRoundTrip | include/lundi/core.hpp:916-978 | a printed head ends where it should and is parsed into what was printed; all fields survive if and only if there are at most 32 |
| RequestHead.HeadUnchanged | include/lundi/core.hpp:916-978 | with values that do not start with a blank, at most 32 fields come back unchanged |
| Examples.SmallestRequest | tests/test_detail_functions.cpp:77-82 | `GET / HTTP/1.1` without fields |
| Response.NoReturnInStatusText | include/lundi/core.hpp:840-883 | no reason phrase can break the status line |
| Examples.SuccessLines | tests/test_response_advanced.cpp:49-79 | the status lines 101 to 204 |
| Examples.RedirectLines | tests/test_response_advanced.cpp:49-79 | the status lines 301 to 304 |
| Examples.ClientErrorLines | tests/test_response_advanced.cpp:49-79 | the status lines 400 to 403 |
| Examples.NotFoundLines | tests/test_response_advanced.cpp:49-79 | the status lines 404 and 405 |
| Examples.MoreErrorLines | tests/test_response_advanced.cpp:49-79 | the status lines 408 and 413 |
| Examples.OtherLines | tests/test_response_advanced.cpp:49-85 | the status line 429, and that of an unknown status |
| Examples.ServerErrorLines | include/lundi/core.hpp:874-879 | the status lines 500, 502 and 503 |
| Response.WriteCustomHeaders | include/lundi/core.hpp:790-810 | the custom fields in order, and whether one of the recognised spellings was seen |
| Response.SerializeInto | include/lundi/core.hpp:754-829 | appends exactly the serialized response to what the buffer held |
| Response.SerializedText | include/lundi/core.hpp:754-829 | the output is the status line, each field on a line of its own, a blank line and the body |
| ReplyStream.ReplyAnnounces | include/lundi/core.hpp:790-818 | what a reader of the head takes for the length: the first custom length in any letter case, else the body size |
| ReplyStream.CodeRead | include/lundi/core.hpp:756-770 | the number behind the protocol version is the status of the response, a negative one with 2^64 added |
| ReplyStream.SelfDelimiting | include/lundi/core.hpp:754-829 | a response is cut off correctly, with its code, head and body, from whatever follows if and only if that length is the body size |
| ReplyStream.LengthFieldsSent | include/lundi/core.hpp:790-818 | how many length fields a response has: the custom ones, and one more unless a recognised spelling is among them |
| ReplyStream.MisspeltLength | include/lundi/core.hpp:790-818 | a response with `CONTENT-LENGTH: 0` and a body: two lengths, and the body is split off as the next response |
| ReplyStream.KnownSpellings | include/lundi/core.hpp:798-805 | exactly two spellings each of the length and connection headers are recognised |
| ReplyStream.OwnLengthOnly | include/lundi/core.hpp:798-818 | an own length in one of them is the only one sent |
| ReplyStream.ManySelfDelimiting | include/lundi/core.hpp:754-829 | so is every list of such responses |
| KeepAlive.FillHeadFinds | include/lundi/server.hpp:458-477 | reading on finds the first blank line of the stream for every schedule if that is within the limit, and never anything else |
| KeepAlive.ReadHeadFinds | include/lundi/server.hpp:444-478 | the same with text left over from the previous request; consumed and unread text together stay the stream |
| Connection.ScanResumes | include/lundi/server.hpp:447-476 | resuming the search three bytes back misses nothing |
| Connection.ReadMore | include/lundi/server.hpp:465-468 | one partial read appends what the socket delivered |
| Connection.ReadHeaders | include/lundi/server.hpp:444-478 | the incremental scan over the growing buffer refines the reading of a head as a function of stream and schedule |
| Connection.CompleteBody | include/lundi/server.hpp:755-783 | one exact read of the missing part of the body, or the end of the stream inside it |
| Connection.Decide | include/lundi/server.hpp:659-753 | which requests are handed off, refused, served, and after which the connection closes |
| Connection.ServeBody | include/lundi/server.hpp:739-813 | body slice, response, and consumption of exactly head plus body; a 408 response when the stream ends inside the body |
| Connection.ServeOne | include/lundi/server.hpp:625-814 | one round: event, bytes written, the buffer state left for the next request, and the capacity of the buffer |
| Connection.HandleConnection | include/lundi/server.hpp:604-823 | the loop produces the events of the run, writes their responses in order, and ends with the buffer at its peak capacity |
| Fragmentation.DispatchesAPrefix | include/lundi/server.hpp:625-814 | on every stream, for every schedule, the requests dispatched are a prefix of the reference parse |
| Fragmentation.DispatchesAll | include/lundi/server.hpp:625-814 | all of them when every head is within the limit |
| Fragmentation.FillByteByByte | include/lundi/server.hpp:458-477 | arriving byte by byte, a head is found exactly when it ends within the limit |
| Fragmentation.SlowReaderLoses | include/lundi/server.hpp:460-463 | with a head beyond the limit, byte-by-byte arrival dispatches strictly less |
| Fragmentation.MatchesReference | include/lundi/server.hpp:625-814 | the dispatched sequence is the reference parse, which knows no limit, for every schedule if and only if every head that is answered is within the limit |
| OversizeHeads.ReachIsLargest | include/lundi/engine/buffer.hpp:163-169 | of all capacities with which a head can be found the largest is known, and whether there are any |
| OversizeHeads.ReadsOfFourThousand | include/lundi/server.hpp:465 | where the doubling starts with 8192 bytes and reads of 4096 |
| OversizeHeads.FoundWith | include/lundi/server.hpp:458-477 | whatever the schedule, a head is found with a capacity of that set |
| OversizeHeads.Steered | include/lundi/server.hpp:458-477 | for each of them there is a schedule that finds the head with it and nothing behind the head |
| OversizeHeads.HeadAcceptable | include/lundi/server.hpp:444-478 | with a buffer of at least 4096 bytes, as every connection has, a schedule that accepts the next head exists if and only if it is buffered, or the limit permits a read and the head ends within what the buffer can then hold |
| OversizeHeads.OversizeHeadAccepted | include/lundi/server.hpp:443-468 | a head beyond the limit that fits 8192 bytes is accepted when it comes at once and refused byte by byte |
| Independence.KeptByAll | include/lundi/server.hpp:625-814 | every schedule dispatches at least the requests in front of the first head beyond the limit |
| Independence.SlowestKeeps | include/lundi/server.hpp:625-814 | byte-by-byte arrival dispatches exactly these |
| Independence.Insensitive | include/lundi/server.hpp:625-814 | so does every schedule when that head is out of reach of every buffer that can have served the requests in front |
| Independence.SomeScheduleGains | include/lundi/server.hpp:625-814 | otherwise some schedule dispatches more |
| Independence.FragmentationIndependence | include/lundi/server.hpp:625-814 | any two schedules dispatch the same, if and only if no head beyond the limit that would be answered comes within that reach |
| ReadMemory.PeakIsLast | include/lundi/server.hpp:620-814 | the buffer never shrinks, so its largest capacity is the one after the last round |
| ReadMemory.PeakBound | include/lundi/server.hpp:465-761 | that capacity for all streams and schedules, bounded by header limit, read size and longest request |
| ReadMemory.MemoryBound | include/lundi/server.hpp:620-761 | a bound in terms of 8192 and the two limits when all heads are within theirs |
| ReadMemory.RequestDoubles | include/lundi/server.hpp:755-761 | for any request whose head fits the buffer and whose body does not there is a schedule that doubles the buffer |
| MemoryLimits.NoBodies | include/lundi/server.hpp:747-761 | without bodies the header limit bounds the buffer |
| MemoryLimits.FewRequests | include/lundi/server.hpp:729-737 | so do both limits when the number of requests on a connection is limited |
| MemoryLimits.DoublingStep | include/lundi/server.hpp:458-477 | a printed request with a head as long as the buffer and one byte of body is served and leaves a buffer of double size |
| MemoryLimits.KeepsDoubling | include/lundi/server.hpp:625-814 | a stream of such requests and a schedule that double the buffer any number of times |
| MemoryLimits.MemoryBounded | include/lundi/server.hpp:625-814 | some number bounds the buffer for all streams and schedules, if and only if `max_header_size` or `max_body_size` is 0, requests per connection are limited, or the server stops at some request; for settings that leave some path to ordinary handlers |
| Pipelining.AskReadBack | include/lundi/core.hpp:916-978 | a printed request with its length field is read back whatever follows |
| Pipelining.AskGoesFirst | include/lundi/server.hpp:625-814 | a plain request in front of any stream is dispatched with its body, and the rest starts right behind it |
| Pipelining.Pipelined | include/lundi/server.hpp:804-813 | a pipeline in front of any stream is dispatched request by request, then the stream as if alone |
| Pipelining.PipelinedForEverySchedule | include/lundi/server.hpp:625-814 | for every fragmentation a pipeline dispatches exactly its requests and bodies |
| Pipelining.OutputSplits | include/lundi/server.hpp:798-802 | the output of a run splits back into the responses of its events |
| Pipelining.Conversation | include/lundi/server.hpp:604-823 | requests in, responses out, for every fragmentation: the client recovers the code, head and body of every response and nothing else |
| ConnectionLaws.HandedOffExactly | include/lundi/server.hpp:665-725 | a request leaves the HTTP loop if and only if it asks for a WebSocket path with upgrade and key, gets an event stream, or is for a streaming path |
| ConnectionLaws.NoMethod | include/lundi/server.hpp:658-661 | a head that is no request ends the connection |
| ConnectionLaws.RefusedExactly | include/lundi/server.hpp:740-753 | a request is refused if and only if it announces no body length within the limit |
| ConnectionLaws.BodyMissing | include/lundi/server.hpp:755-780 | a request whose announced body does not arrive is given up |
| ConnectionLaws.GoesOnExactly | include/lundi/server.hpp:729-813 | a complete request is dispatched with its body, and the connection goes on behind it if and only if the client does not say close, the limit is not reached and the server is not stopping |
| ConnectionLaws.ServerAndDate | include/lundi/core.hpp:772-775 | server name and date of every response |
| ConnectionLaws.PresetSeen | include/lundi/core.hpp:777-788 | the content type of each preset |
| ConnectionLaws.ConnectionSeen | include/lundi/server.hpp:790-802 | the response is that of the handler for the request, and it says close exactly when the connection closes, and keep-alive otherwise |
| ConnectionLaws.HandOffIsSilent | include/lundi/server.hpp:665-725 | a hand-off writes no response of the HTTP loop |
| ConnectionLaws.OwnConnectionOnly | include/lundi/core.hpp:802-822 | an own connection field in a known spelling is the only one sent |
| ConnectionLaws.ServersOwn | include/lundi/server.hpp:747-780 | the responses 408 and 413 with their texts, both closing the connection |
| Chunked.ChunkedWriter.WriteChunk | include/lundi/chunked.hpp:40-55 | one chunk is sent, nothing for empty data |
| Chunked.ChunkedWriter.FinishChunks | include/lundi/chunked.hpp:64-71 | the last chunk is sent once |
| Chunked.ChunkedWriter.Perform | include/lundi/chunked.hpp:40-71 | any sequence of calls sends the specified text |
| Chunked.ChunkRoundTrip | include/lundi/chunked.hpp:45-52 | a chunk is decoded back exactly below 2^60 bytes; from there on its size line does not fit the 18-byte buffer |
| Chunked.ChunkedRoundTrip | include/lundi/chunked.hpp:40-71 | a decoder by section 7.1 of RFC 9112 recovers the data written before the first `finish` and stops behind its last chunk |
| Chunked.NeverFinished | include/lundi/chunked.hpp:40-71 | without a `finish` the decoder finds no complete body |
| Chunked.CompleteExactly | include/lundi/chunked.hpp:40-71 | the decoder finds a complete body, the right one, if and only if there is a `finish` and no chunk of 2^60 bytes before it |
| Chunked.FinishedLast | include/lundi/chunked.hpp:64-71 | nothing follows the last chunk when only empty writes and more `finish` calls do |
| Examples.ChunkTests | include/lundi/chunked.hpp:45-52 | the bytes of a chunk of 5 and of 10 bytes |
| Multipart.ReadPartHeaders | include/lundi/core.hpp:342-380 | name, file name and type as functions of the part headers |
| Multipart.ParseMultipart | include/lundi/core.hpp:289-401 | the loop over positions terminates on every body and computes the recursive parse |
| Multipart.ContentInFront | include/lundi/core.hpp:334-339 | the content is a piece of the text in front of the delimiter if and only if there is such text |
| Multipart.OnePart | include/lundi/core.hpp:305-340 | one round in positions is the next part of the remaining text |
| Multipart.FindShift | include/lundi/core.hpp:328 | searching from a position is searching in the rest |
| Multipart.ContentShift | include/lundi/core.hpp:334-339 | which content a round takes, with the wrap-around of an empty part |
| MultipartPrinting.NameFound | include/lundi/core.hpp:344-353 | the printed name is found |
| MultipartPrinting.FileFound | include/lundi/core.hpp:355-364 | the printed file name is found unless the name ends in `filename=` |
| MultipartPrinting.LuredFileName | include/lundi/core.hpp:355-364 | in that case a wrong one is read, always the same |
| MultipartPrinting.FileFoundExactly | include/lundi/core.hpp:355-364 | a printed file name is read back if and only if the name does not end in `filename=` or the wrong one happens to be right |
| MultipartPrinting.NoFileFound | include/lundi/core.hpp:355-364 | a field without file name is never taken for a file |
| MultipartPrinting.TypeFound | include/lundi/core.hpp:366-380 | the printed content type is found behind any line that does not itself hold its key |
| MultipartPrinting.TypeWrong | include/lundi/core.hpp:366-380 | behind any other line what is read ends in the quote that ends the line |
| MultipartPrinting.TypeFoundExactly | include/lundi/core.hpp:366-380 | the content type is read back if and only if neither name nor file name holds the key, nor its second spelling when no type is printed |
| MultipartPrinting.HeadersReadExactly | include/lundi/core.hpp:342-380 | name, file name and type are all read back if and only if both conditions hold |
| MultipartPrinting.HeadersRead | include/lundi/core.hpp:342-380 | all three values of a printed part are read back |
| MultipartPrinting.ContentEnds | include/lundi/core.hpp:328-339 | the content in front of the delimiter is the printed data |
| MultipartPrinting.NoLineBreakTakesRest | include/lundi/core.hpp:334-339 | a body whose part has its delimiter directly behind the blank line: the part gets the delimiter and all that follows |
| MultipartPrinting.PartsRoundTrip | include/lundi/core.hpp:303-398 | every list of printed parts is read back on top of any form |
| MultipartPrinting.FormRoundTrip | include/lundi/core.hpp:289-401 | a printed form is parsed into exactly the fields and files it was printed from |
| MultipartPrinting.FormKeys | include/lundi/core.hpp:387-397 | the fields of a parsed form are the names of its text parts and nothing else, the files those of its file parts |
| MultipartPrinting.MeantKeys | include/lundi/core.hpp:387-397 | the same on top of any form |
| MultipartPrinting.NamelessSkipped | include/lundi/core.hpp:382-385 | a part without a name is left out, and the parts behind it are not |
| MultipartPrinting.NoBreakNeeded | include/lundi/core.hpp:314-317 | the line break behind a delimiter may be missing |
| MultipartPrinting.LowerCaseType | include/lundi/core.hpp:366-380 | a content type header in lower case is read, too |
| MultipartPrinting.TypeEndsAtLine | include/lundi/core.hpp:374-379 | the content type ends with its line |
| MultipartPrinting.UnclosedQuote | include/lundi/core.hpp:348-352 | a value whose quote is never closed is none |
| MultipartPrinting.NothingToRead | include/lundi/core.hpp:297-301 | a body without a delimiter is an empty form |
| MultipartPrinting.UnfinishedPart | include/lundi/core.hpp:319-332 | a part without a blank line or without a closing delimiter is not read |
| Examples.UploadText | tests/test_multipart.cpp:44-47 | the bytes of a file upload |
| Examples.UploadRead | tests/test_multipart.cpp:48-55 | what the parser makes of it |
| MultipartPrinting.EveryPartHeld | include/lundi/core.hpp:387-397 | a part that no later part replaces is in the result with its own data |
| Sha1.AbsorbByte | include/lundi/ws.hpp:102-110 | one byte more keeps the hash of the full blocks and the partial block of the message |
| Sha1.MakeSchedule | include/lundi/ws.hpp:46-56 | the 80 words of the schedule |
| Sha1.RunRounds | include/lundi/ws.hpp:58-88 | the 80 rounds |
| Sha1.Hasher.Transform | include/lundi/ws.hpp:44-94 | one block folded into the state |
| Sha1.Hasher.Update | include/lundi/ws.hpp:97-111 | the message grows by the data, across block boundaries |
| Sha1.Hasher.Finalize | include/lundi/ws.hpp:114-142 | the digest of the whole message by its one-shot definition; the padding loop ends |
| Sha1.PadTest | include/lundi/ws.hpp:120-123 | the padding loop stops exactly at the padding length, also when the counter wraps |
| Sha1.HashInPieces | include/lundi/ws.hpp:175-178 | for every split into updates the digest is that of the joined message |
| Sha1.LengthFieldExact | include/lundi/ws.hpp:116-130 | the length field holds the bit length if and only if the message is below 2^61 bytes |
| Sha1.PaddingIsInjective | include/lundi/ws.hpp:114-130 | below that bound different messages have different paddings |
| Sha1Example.DigestOfAbc | include/lundi/ws.hpp:44-142 | the digest of "abc" of section 7.3 of RFC 3174 |
| Bytes.BigEndianRoundTrip | include/lundi/ws.hpp:124-129 | big-endian bytes give the number back |
| Base64.Base64Encode | include/lundi/ws.hpp:146-169 | the loop over triples computes the encoding |
| Base64.Base64RoundTrip | include/lundi/ws.hpp:146-169 | a strict decoder by section 4 of RFC 4648 inverts it on every byte string |
| Base64.EncodedLength | include/lundi/ws.hpp:150-151 | the length is four times the number of triples, rounded up |
| Examples.Alphabet | include/lundi/ws.hpp:148-149 | the 64 characters |
| Examples.Base64Tests | tests/test_websocket.cpp:30-46 | the encodings of "A", "AB" and "ABC" |
| Base64.WsAcceptKey | include/lundi/ws.hpp:172-180 | the accept key has 28 characters and decodes to the digest of key and constant |
| Frames.MaskedTwice | include/lundi/ws.hpp:292-299 | masking twice with one key gives the payload back |
| FrameLaws.MaskGoesRound | include/lundi/ws.hpp:294-298 | each byte meets the key byte at its place modulo 4 |
| FrameLaws.MaskShowsKey | include/lundi/ws.hpp:294-298 | masked zeros are the key, and the masked key is zeros |
| FrameLaws.MaskedFrame | include/lundi/ws.hpp:249-299 | the bytes of a short masked frame |
| FrameLaws.MaskedHello | include/lundi/ws.hpp:249-299 | the masked frame of section 5.7 of RFC 6455 |
| Frames.UnmaskInPlace | include/lundi/ws.hpp:292-299 | the loop over the payload masks it in place |
| Frames.WriteFrame | include/lundi/ws.hpp:368-397 | the frame written, in all three length forms |
| Frames.FrameRoundTrip | include/lundi/ws.hpp:249-299 | any frame, masked or not, is decoded back with the input behind it, or refused when above the limit |
| Frames.ShortestForm | include/lundi/ws.hpp:375-392 | no frame that carries the payload is shorter than the one written |
| FrameLaws.WrittenShort | include/lundi/ws.hpp:373-378 | the bytes of a frame below 126 bytes |
| FrameLaws.WrittenMedium | include/lundi/ws.hpp:379-384 | the bytes of a frame below 2^16 bytes |
| FrameLaws.WrittenLong | include/lundi/ws.hpp:385-392 | the bytes of a longer frame |
| FrameLaws.BigEndianBytes | include/lundi/ws.hpp:388-391 | most significant byte first |
| FrameLaws.LongLengths | include/lundi/ws.hpp:257-272 | so are the extended lengths that are read |
| FrameLaws.CloseCodes | include/lundi/ws.hpp:351-356 | the bytes of the close frames |
| FrameLaws.ShortFrame | include/lundi/ws.hpp:249-290 | the bytes of a short unmasked frame |
| FrameLaws.ReadOnWire | include/lundi/ws.hpp:301-323 | what `read` does with every first byte, told in bytes: pongs, close, 1003, data |
| FrameLaws.TooLongOnWire | include/lundi/ws.hpp:274-277 | a frame announced too long is answered with 1009 at once |
| WebSocket.Connection.ReadLength | include/lundi/ws.hpp:255-272 | the three length forms |
| WebSocket.Connection.ReadPayload | include/lundi/ws.hpp:279-299 | key and payload are read and unmasked |
| WebSocket.Connection.ReadFrame | include/lundi/ws.hpp:249-299 | reading a frame field by field is decoding the input, in all its error cases |
| WebSocket.Connection.Close | include/lundi/ws.hpp:351-356 | the close frame with its code |
| WebSocket.Connection.Read | include/lundi/ws.hpp:245-329 | the next message, the bytes sent on the way and the input left; the recursion ends |
| WebSocket.Connection.ReadUntilClosed | include/lundi/ws.hpp:223-228 | the loop of a handler collects what the specification delivers |
| WebSocket.WholeSession | include/lundi/ws.hpp:245-329 | over any input that splits into frames, in any encoding, and any tail: the finished data frames before the first stopping frame, a pong per ping, the right farewell |
| WebSocket.ArrivedSplits | include/lundi/ws.hpp:245-299 | every input splits into its complete frames and a rest that holds none |
| WebSocket.AnySession | include/lundi/ws.hpp:245-329 | so the session of every input is known; the rest adds a farewell only when it announces too much |
| WebSocket.PrintedSplits | include/lundi/ws.hpp:245-299 | printed frames are such an input, masked or not |
| WebSocket.EndOfInput | include/lundi/ws.hpp:325-328 | input that ends after running frames ends the session without a farewell |
| Router.SplitPath | include/lundi/router.hpp:99-124 | the first 16 non-empty pieces, in the fixed array |
| Router.ParsePattern | include/lundi/router.hpp:39-90 | the pattern as a list of segments, one for every non-empty piece |
| Router.MatchRoute | include/lundi/router.hpp:139-181 | matches exactly when every piece fits; appends the captured parameters, or leaves the vector as it was |
| Router.FirstHit | include/lundi/router.hpp:227-240 | the earliest route with the same method whose pattern matches |
| Router.ClearedExactly | include/lundi/router.hpp:222-240 | what was in the vector is gone after a lookup if and only if some route has the method |
| Router.Router.Add | include/lundi/router.hpp:204-207 | the route goes behind all others with its parsed pattern |
| Router.Router.Resolve | include/lundi/router.hpp:224-241 | the loop finds the first hit and leaves exactly its parameters |
| Router.PartsNonEmpty | include/lundi/router.hpp:107-122 | pieces are non-empty and free of slashes |
| Router.PartsSplit | include/lundi/router.hpp:107-122 | the pieces of two paths joined by a slash are those of both |
| Router.SlashesIgnored | include/lundi/router.hpp:99-124 | leading, trailing and doubled slashes change nothing |
| Router.PathRoundTrip | include/lundi/router.hpp:99-124 | a path made of pieces is split into them |
| Router.DepthLimit | include/lundi/router.hpp:94-107 | matching looks at the whole path if and only if it has at most 16 pieces |
| RoutePrinting.SegmentRoundTrip | include/lundi/router.hpp:55-80 | a printed segment is read back |
| RoutePrinting.ReadableIsPrintable | include/lundi/router.hpp:55-80 | whatever is read from a pattern can be printed |
| RoutePrinting.PatternRoundTrip | include/lundi/router.hpp:39-90 | a printed pattern is read back segment by segment |
| RoutePrinting.PatternNormalForm | include/lundi/router.hpp:39-90 | printing a parsed pattern keeps its meaning |
| RoutePrinting.FillRoundTrip | include/lundi/router.hpp:139-181 | a pattern filled with values is matched if and only if it has at most 16 segments, and gives names and values back in order |
| RoutePrinting.IntPieces | include/lundi/router.hpp:163-172 | an integer segment fits a piece if and only if the piece is a numeral in range |
| RoutePrinting.NumeralShape | include/lundi/router.hpp:163-172 | such a piece has digits only, behind an optional minus |
| RoutePrinting.IntRoute | include/lundi/router.hpp:224-241 | a route with one integer answers exactly the numerals, and hands over their value |
| RoutePrinting.LiteralRoute | include/lundi/router.hpp:156-162 | a route of words matches exactly these words |
| RoutePrinting.WordRoute | include/lundi/router.hpp:175-177 | a route with one string answers whatever stands behind its word, and hands it over |
| RoutePrinting.WrongMethod | include/lundi/router.hpp:229-232 | routes of other methods never answer |
| Examples.IntPattern | tests/test_detail_functions.cpp:112-118 | the pattern `/users/<int:id>` |
| Examples.StringSegments | tests/test_detail_functions.cpp:120-125 | segments with type `string` and with none |
| Examples.RootPattern | tests/test_detail_functions.cpp:138-141 | the root pattern has no segments |
| RoutePrinting.RefilledPath | include/lundi/router.hpp:139-181 | filling a pattern with what a path gave leads to a path that gives the same |
| RoutePrinting.LookupIgnoresSlashes | include/lundi/router.hpp:224-241 | hit and parameters do not depend on superfluous slashes |
| RoutePrinting.EarlierRoutesWin | include/lundi/router.hpp:227-238 | routes added later answer only what no earlier one does |
| RoutePrinting.AddedRouteAnswers | include/lundi/router.hpp:204-241 | a route printed, added and asked for with given values answers with these values |
| DateCache.Updated | include/lundi/engine/date_cache.hpp:31-54 | a new second shows its date and keeps the old one in the other buffer |
| DateCache.SameSecond | include/lundi/engine/date_cache.hpp:36-39 | within one second nothing changes |
| DateCache.NewSecond | include/lundi/engine/date_cache.hpp:36-40 | a new second is remembered, so updating again changes nothing |
| DateCache.DateCache.constructor | include/lundi/engine/date_cache.hpp:24-27 | the first update has happened |
| DateCache.DateCache.Update | include/lundi/engine/date_cache.hpp:31-54 | writing the inactive buffer character by character and swapping is that update |
| DateCache.DateCache.Get | include/lundi/engine/date_cache.hpp:57-60 | the buffer handed out holds the date shown |
| DateProtocol.RunSafe | include/lundi/engine/date_cache.hpp:31-60 | the safety invariant holds along every interleaving |
| DateProtocol.ActiveBufferComplete | include/lundi/engine/date_cache.hpp:42-59 | the active buffer always holds the complete newest date and is never the one being written |
| DateProtocol.ReaderGetsOneDate | include/lundi/engine/date_cache.hpp:56-60 | a copy that ends before a second update begins is the newest date at the time of the load |
| DateProtocol.PromptReader | include/lundi/engine/date_cache.hpp:56-60 | a reader that copies at once is not late and gets the date shown |
| DateProtocol.SameSecondIdle | include/lundi/engine/date_cache.hpp:36-39 | within one second no update begins |
| DateProtocol.WholeUpdate | include/lundi/engine/date_cache.hpp:31-54 | the steps of an uninterrupted update do what the method does |
| DateProtocol.TornRead | include/lundi/engine/date_cache.hpp:31-60 | two updates in the middle of a copy: the front of one date and the rest of another, at any cut |
| AcceptLoop.PickWorker | include/lundi/server.hpp:564-574 | the loop finds the first of the smallest values it loads, each counter being loaded once at its own moment |
| AcceptLoop.ScanIsLoop | include/lundi/server.hpp:564-574 | whatever connections end between its loads, a scan chooses as that loop does from the values it loaded |
| AcceptLoop.AcceptsOne | include/lundi/server.hpp:562-583 | whenever the acceptor runs, a scan and an acceptance are possible, and the connection goes to the first of the smallest counters |
| AcceptLoop.RunInvariant | include/lundi/server.hpp:562-583 | conservation, fairness of the scan and the load bound hold along every interleaving of scan and departures |
| AcceptLoop.CountersExact | include/lundi/server.hpp:580-583 | every counter is the number of its worker's unfinished connections, so never negative |
| AcceptLoop.LeaveConserved | include/lundi/server.hpp:607-616 | the guard gives back exactly one |
| AcceptLoop.BestIsLow | include/lundi/server.hpp:564-574 | the chosen worker is at most at the average of the counters when the scan began, whoever left since |
| AcceptLoop.NeverOverloaded | include/lundi/server.hpp:562-583 | no worker ever has more than 1 + peak / n connections |
| AcceptLoop.PeakIsMost | include/lundi/server.hpp:562-583 | the peak of this bound is the most connections live at once |
| AcceptLoop.NextInTurn | include/lundi/server.hpp:564-574 | from an even spread the next connection goes to worker k mod n |
| AcceptLoop.EvenWithoutDepartures | include/lundi/server.hpp:562-583 | without departures connection k goes to worker k mod n and counters differ by at most one |

## Left out

- Sockets, executors, coroutines, timers and signals: a socket is a byte stream with a read size chosen for every turn, a body is one exact read, and errors other than the end of the stream do not occur.
- Timers fire only where nothing more can arrive. The body read is raced with a timer by `||` of asio, which waits for the first success: a stream that ends inside the body leads to the timer and the 408 response (`TimedOut`). A stream that merely pauses, in a head or in a body, is taken to go on in time.
- Sizes are unbounded in the buffers and parsers: additions of `size_t` do not overflow there. Where the code depends on the width (SHA-1 counter, length fields, `from_chars`, `fast_itoa`) the width is modelled.
- The shutdown flag is a value for each request of a connection, given in advance.
- Hand-offs to WebSocket, SSE and streaming handlers end the trace of the HTTP loop; what they write is not part of it, and bytes read ahead are not passed on.
- Views into the buffer and their lifetimes: a request is a value, and its body is the slice the code means.
- A handler is a function of the request, its body and its number on the connection; the date at each response is a parameter. The body of a response is below 2^64 bytes, and its `num_headers` field counts its headers.
- `::tolower` is that of the "C" locale.
- Memory order: the steps of both concurrent protocols interleave in one order that all threads see. Acceptor failures stop the loop; a worker that drops a connection before its coroutine starts, at shutdown, is not modelled.
- The formatting of dates: a date is any text of 29 characters, and the first update finds a second other than 0.
- Route handlers are values of any type, and the pointer to a handler is the position of its route.
- HEAD falling back to GET, static files, MIME types, cookies, forms sent as `application/x-www-form-urlencoded`: no state, and only easy members.
- The boundary is given to `parse_multipart`; taking it from the content type header is not modelled.
- Middleware, CORS, logging, `route_group`, server-sent events and `ws_handshake_response`: plain folds and concatenations.
