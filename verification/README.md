# A model of xx-url: WebSocket framing and HTTP message reading

This project models the two byte-stream state machines of `xx-url`, a networking library in
Rust, and the HTTP message head, and proves what they promise over whole runs.

* **WebSocket** (`src/ws`): the frame header codec, the mask, the writer with its fragmentation
  state, the reader with its reassembly state, and the closing handshake that the two halves of a
  connection share. The main results are an end-to-end law (whatever is sent on one endpoint, the
  peer receives what the calls mean), the same for two endpoints that talk in both directions at
  once up to the close that both reach, the section 5.4 grammar as the invariant of both machines,
  and the closing handshake over all interleavings of the two halves.
* **HTTP body** (`src/http/body.rs`): the resumable decoder of response bodies. The main results
  are that any two complete runs over the same bytes agree, whatever the network and the caller's
  buffers do and even if the bytes are malformed, that decoding is exactly the inverse of chunked
  encoding, and that the bytes of a body of known length are conserved.
* **HTTP head** (`src/http/transfer.rs`, `src/ws/transfer.rs`): what one side prints against what
  the other side parses, in both directions, and the size budget of both parsers.

## Layout

| file | contents |
|---|---|
| `Bytes.dfy`, `Utf8.dfy` | integers as ranges, big-endian numbers, well-formed UTF-8 |
| `BufReader.dfy` | the buffered reader and the socket, as assumed of the library |
| `Mask.dfy` | the mask: its definition per byte, and the loops over unaligned bytes and words |
| `Wire.dfy` | the frame header and whole frames as bytes |
| `Protocol.dfy` | one step of the reader and of the writer as functions |
| `Layout.dfy` | the bytes of frames as RFC 6455 numbers them, and what reader and writer make of them |
| `WebSocket.dfy` | the reader and the writer as classes, proved against `Protocol.dfy` |
| `EndToEnd.dfy` | one endpoint against the other, over whole runs; Close frames |
| `Conversation.dfy` | the same for the classes: callers of the writer and of the reader |
| `Duplex.dfy` | two endpoints, each sending and receiving on one close state, in any order |
| `Fragmentation.dfy` | section 5.4 of RFC 6455 as a property of frame sequences |
| `CloseProtocol.dfy` | the closing handshake, step by step, under interleaving |
| `Chunked.dfy`, `Body.dfy`, `BodyRuns.dfy` | what a body is; its reader; runs of the reader |
| `BrokenBody.dfy` | chunked bodies that are cut off or malformed |
| `Lines.dfy`, `Headers.dfy`, `PrintedHead.dfy` | line scan; parsers of heads; printers against parsers |
| `HeadText.dfy` | the text of heads byte by byte: lines, fields, first lines, versions; what is refused |
| `LateLines.dfy`, `LateResponse.dfy` | what becomes of a printed head when a line is scanned too late |

Objects that the source updates in place are classes. Each method is proved against a function of
what the connection still holds, `Pending()`, which does not mention buffers or fills; the laws
are then proved of those functions. Only the scan for the lines of a head depends on the fills;
there the methods are proved against functions of `Ahead()`, which also has the network, and the
results say for which networks these are the functions of `Pending()`.

## Assumptions about the library

The library `xx-core` (buffered reading, sockets) is not part of this model. It is assumed that

* `fill` appends between one byte and all that fits, drops nothing, and reports 0 at the end of
  the stream or when the buffer is full of unconsumed bytes; how much it appends is up to a
  function of the number of bytes not taken yet, the network, of which nothing is assumed;
* `read_into!` cuts the buffer to the given length and returns 0 from the caller if it is empty;
* `read` returns at least one byte unless there are none or none are wanted;
* reading a fixed-size integer consumes all of it, or everything that is left and fails;
  `try_read_type` is `None` only if nothing is left;
* `read_fully` is short only at the end of the stream;
* `write_all_vectored` writes everything or reports how much it wrote;
* the buffer of a body's reader holds at least 33 bytes.

The standard library's `align_to_mut` may cut a slice in any way that leaves whole words in the
middle, on a host of either byte order. A slice is at most `isize::MAX` bytes long.

## Where the code and its evident intent differ

The model follows the code. Each difference has an example and the exact condition.

* The length of a Close frame leaves out the two bytes of the status code. The frame round-trips
  only for code 1005 with an empty reason or the reason `[3]` (`CloseRoundTripsIff`), the code
  arrives if and only if the reason has two bytes or the code is 1005 (`CloseCodeArrivesIff`), and
  the last two bytes written are always left over (`CloseLeavesTwoBytes`).
* `read_line_in_place` advances past the end of the buffer on its second miss. It finds the line, or
  reports rightly that there is none, if and only if every look comes in time (`ScanRightIff`).
  `ThreePiecesCanFail` has a line that is not found and an index out of range, `FullBufferCanLookEnded`
  a full buffer that is taken for the end of the stream, and for every request
  there is a network for which it does not arrive (`RequestCanFail`). A request that is buffered
  with the first two fills arrives (`RequestArrives`), and a request arrives if and only if all its
  lines are in time (`RequestArrivesIff`). A late line can also go unnoticed: a field without a
  value takes the next line as its value, so that the server gets another map and no error
  (`RequestCanArriveWrong`). Responses likewise: the exact condition is `ResponseArrivesIff`, every
  response has a network for which it fails (`ResponseCanFail`), and one for which its first field is
  lost without an error (`ResponseCanLoseField`). The condition is for distinct names, since a lost
  field whose name comes again is not missed (`RepeatedNameHidesLoss`).
* Of a version the first five bytes are not looked at, and what follows it on the request line is
  ignored: `GET / XXXXX1.1 X` is let in (`StrangeRequestLine`). What is let in is exactly said by
  `AcceptedRequest` and `RequestLineIff`. A status line is taken only if it begins with `HTTP/`
  (`TakenStatusLine`).
* `discard_frame_data` fails although the payload was complete exactly when nothing follows it
  (contract of `DiscardFrameData`).
* When the halves are split, both can run `close`; in all they run it twice if and only if the
  writer began its Close while the reader waited for the payload of the peer's, and once otherwise
  (`ClosingsExactly`, `SplitHalvesCloseTwice`).
* The count of `read_fully` is ignored, so that a payload that the end of the stream cuts off is
  taken with zeros for what did not arrive, instead of failing (`CutOffPayload`, which rests on the
  assumption on `read_fully`).
* After a refused frame the two fields of the reader may disagree; `RefusalKeepsConsistentIff`
  says when. A caller that goes on reads next what should have been the refused payload
  (`RefusalLeavesPayload`). It can then reach an `unreachable!()` if and only if the first of several
  fragments was refused by its length or mask (`PanicAfterRefusalIff`, `PanicsOnlyAfterBreak`). If the
  last fragment was refused (`StaleIff`), the message under way stays, and what follows is spliced onto
  it if and only if it begins with a frame that would open and end a message of its own within the
  limit (`SplicesIff`), as the refused payload itself may (`RefusedEndIsSpliced`).
  `AfterRefusalExamples` has the bytes of both.

## Model

| member | source | states |
|---|---|---|
| Mask.ApplyMask | src/ws/mod.rs:222-241 | For every cut into prefix, words and suffix and either byte order, the slice ends up as section 5.3 defines it: byte i combined with key byte i mod 4 |
| Mask.MaskBytes | src/ws/mod.rs:227-230 | The byte loops mask their stretch and hand on the key rotated to where they stopped |
| Mask.MaskWords | src/ws/mod.rs:232-235 | The word loop masks its stretch in agreement with the bytes before and after it, without rotating the key |
| Mask.WordStep | src/ws/mod.rs:233-235 | One word operation with the key in native order is four byte operations, on either kind of host |
| Mask.RotateMovesBytes | src/ws/mod.rs:228-229 | `rotate_left(8)` moves every key byte one place forward, the first to the end |
| Mask.MaskedTwice | src/ws/mod.rs:222-241 | Masking is its own inverse, for every key |
| Mask.MaskedWithZeroKey | src/ws/stream.rs:442-444 | The client's key 0 leaves payloads as they are |
| Wire.EncodeHeader | src/ws/stream.rs:469-483 | A header takes 2 to 14 bytes, and at most 6 for a short payload, so that 16 bytes are enough |
| Wire.LengthRoundTrip | src/ws/stream.rs:25-48 | The extended length has the size its field announces and holds the length, for each of the three forms |
| Wire.WriteHeader | src/ws/stream.rs:75-96 | Appends exactly the encoded header, and fails exactly when the array is too short |
| Wire.ReadHeaderFrom | src/ws/stream.rs:52-72 | For every fill, the header read is the one at the start of the stream, the stream stands right after it, and a cut-off header is told from the end of the stream |
| Wire.HeaderRoundTrip | src/ws/stream.rs:52-96 | Reading a written header followed by anything gives the same header and leaves exactly what followed |
| Wire.ReencodedIff | src/ws/stream.rs:52-96 | What was read is written back byte for byte if and only if the reserved bits were clear and the length was in its shortest form; other headers are accepted too |
| Layout.MaskIsBitwise | src/ws/mod.rs:227-235 | Bit by bit, masking sets a bit if and only if exactly one of byte and key byte has it |
| Layout.ReadsLayout | src/ws/stream.rs:52-72 | The header that is read is the one section 5.2 lays out in these bytes: flag, opcode by its number, mask flag, the three forms of the length, and a key whose bytes are those of the wire in their order |
| Layout.HeaderIff | src/ws/stream.rs:52-65 | There is no header if and only if the stream is empty, and a cut-off one if and only if fewer bytes are there than its second byte calls for |
| Layout.WritesLayout | src/ws/stream.rs:75-96 | A written header is laid out so, with reserved bits clear and the length in its shortest form |
| Layout.ReadsPayload | src/ws/stream.rs:374-381 | Byte i of the payload is byte i after the header combined with byte i mod 4 of the key on the wire (section 5.3), with zero for what the end of the stream cuts off |
| Layout.WritesPayload | src/ws/stream.rs:75-96 | An encoded frame carries its payload so |
| Layout.FailsIff | src/ws/stream.rs:209-366 | Which error a frame meets, by the numbers in its header: each of the seven errors if and only if its condition holds |
| Layout.NoFrame | src/ws/stream.rs:210-218 | A shut reader fails with `Shutdown` and reads nothing; at the end of the stream Close 1006 is delivered; a cut-off header fails with `UnexpectedEof` |
| Layout.Delivers | src/ws/stream.rs:317-395 | What is delivered, by the bytes: opcodes 9, 10, 8, 0, 1 and 2 by number, the payload as above, the code of a Close in its first two bytes or 1005 without them, the message under way before a last fragment |
| Layout.RefusesIff | src/ws/stream.rs:428-467 | Each of the three errors of the writer if and only if: writing is shut; a control frame over 125 bytes, or 123 for a Close; another data opcode during a message |
| Layout.SendsBytes | src/ws/stream.rs:436-483 | The bytes of every accepted call: flag and opcode by number, mask flag and shortest length, a client's key of four zeros, the two bytes of a close code, the payload |
| Layout.ForwardedClose | src/ws/mod.rs:122-132 | A Close that is forwarded arrives with as many bytes of code and reason as the reason alone is long |
| Wire.FrameParsesUniquely | src/ws/stream.rs:52-96 | A byte string begins with at most one frame |
| Wire.FramesParseUniquely | src/ws/stream.rs:52-96 | A byte string is the concatenation of at most one sequence of frames |
| Stream.AnySeriesOccurs | src/http/transfer.rs:235 | For any series of fills there is a network that brings it about, so that a result for every network is one for every way the bytes can arrive |
| Utf8.ValidConcat | src/ws/stream.rs:388 | Fragments that are valid text one by one are valid together, so that `from_utf8` cannot fail on what `text_partial` sent |
| Utf8.EncodedIsValid | src/ws/stream.rs:388 | The encoding of any sequence of Unicode scalar values, of every length from one to four bytes, is accepted as text |
| Utf8.ValidIsEncoded | src/ws/stream.rs:388 | Conversely, whatever is accepted as text encodes some sequence of scalar values, so overlong forms and surrogates are refused |
| Utf8.CarriesValue | src/ws/stream.rs:388 | An encoding carries its scalar value in the bits of its bytes, in as many bytes as the value needs |
| Protocol.ReadEncodedFrame | src/ws/stream.rs:301-395 | Reading the bytes of a frame, with any key and anything after it, is taking its unmasked payload, and leaves what came after |
| Protocol.ShutIs | src/ws/stream.rs:138-150 | Shutting a side shuts that side only, in either order the same, and answers whether both are shut now, however often it is called |
| Protocol.AcceptedIff | src/ws/stream.rs:209-394 | A frame is taken without error if and only if it passes the checks of the reader: valid opcode, no mask towards a client, control frames final and short, continuation exactly when a message is under way, total within the limit, text well formed; reserved bits that are set, lengths not in shortest form and unmasked frames from a client pass too |
| Protocol.CutOffPayload | src/ws/stream.rs:321-381 | A payload cut off by the end of the stream is taken as if zeros had followed |
| Protocol.ReadKeepsConsistent | src/ws/stream.rs:234-245 | Every read on any bytes keeps `expect_continuation` in agreement with `current_message`, its opcode Text or Binary and its length within the limit, or fails; no `unreachable!()` or `unwrap` fires |
| Protocol.RefusalKeepsConsistentIff | src/ws/stream.rs:234-249 | After a refused header the fields still agree if and only if the given condition on header and state held |
| Protocol.PanicsNextIff | src/ws/stream.rs:301-395 | Some bytes lead into an `unreachable!()` if and only if the reader can read and either expects a continuation with no message under way, or has one under way that neither Text nor Binary opened, within the limit |
| Protocol.PanicAfterRefusalIff | src/ws/stream.rs:234-313 | After a refused header an `unreachable!()` can be reached next if and only if the header was the first of several fragments, refused by its length or by its mask |
| Protocol.PanicsOnlyAfterBreak | src/ws/stream.rs:301-395 | Over any run on any bytes that goes on after errors: no panic without such a header before it |
| Protocol.StaleIff | src/ws/stream.rs:234-313 | A refused header leaves a fragment behind, with no continuation expected, if and only if it was the last fragment of the message under way |
| Protocol.RefusalLeavesPayload | src/ws/stream.rs:301-313 | A refusal leaves everything after the header on the stream, so that the next read begins inside the refused payload |
| Protocol.SplicesIff | src/ws/stream.rs:355-394 | From there, on any bytes, a data message is delivered if and only if they begin with the header of an admissible unfragmented message, and it is the old fragments with that payload appended, under their opcode |
| Protocol.RefusedEndIsSpliced | src/ws/stream.rs:301-394 | On the stream: if the last fragment is refused and its payload begins with such a frame, the next read delivers the splice and goes on after that frame |
| Protocol.AfterRefusalExamples | src/ws/stream.rs:301-394 | Eight bytes read frame by frame with limit 2 deliver a message spliced from inside a refused payload, and four with limit 1 reach an `unreachable!()` |
| Protocol.TooLongIff | src/ws/stream.rs:311-366 | A data frame in its place is refused as too long if and only if the running total passes the limit |
| Protocol.NextMessage | src/ws/stream.rs:397-403 | `next_frame` never yields a partial message |
| Protocol.ReceiveByMessages | src/ws/stream.rs:397-416 | A run of the reader is one `next` after the other |
| WebSocket.Shared.constructor | src/ws/stream.rs:110-118 | A connection starts with nothing shut |
| WebSocket.Shared.ShutdownHalf | src/ws/stream.rs:138-150 | The close state and the answer are those of the transition function |
| WebSocket.Reader.ReadFrameHeader | src/ws/stream.rs:209-256 | For every fill, outcome, fields, close state and stream position are those of `NextHeader` |
| WebSocket.Reader.DiscardFrameData | src/ws/stream.rs:258-281 | For every fill: succeeds if and only if something follows the payload, has then consumed exactly the payload and zeroed the length; otherwise everything is consumed and counted off |
| WebSocket.Reader.ReadFrameData | src/ws/stream.rs:187-198 | Copies the next payload bytes, no more than the header and the buffer allow, counts them off the header and leaves the rest of the buffer |
| WebSocket.Reader.ReadPayload | src/ws/stream.rs:321-327 | The payload read in place and unmasked in place is the unmasked stretch of the stream |
| WebSocket.Reader.TakeControl | src/ws/stream.rs:315-354 | A control frame becomes the message and state of `ReadBody`; `close` runs exactly for a Close with both sides shut |
| WebSocket.Reader.TakeData | src/ws/stream.rs:355-394 | A data frame becomes the message and state of `ReadBody`; the casts keep their values and `checked_add` succeeds |
| WebSocket.Reader.ReadOneFrame | src/ws/stream.rs:301-395 | For every fill, a step of the reader is `ReadFrame` of its state and the pending bytes |
| WebSocket.Reader.NextFrame | src/ws/stream.rs:397-403 | The loop ends and yields `NextMessage`; `close` ran exactly as often as a Close was read through with both sides shut |
| WebSocket.Reader.Next | src/ws/stream.rs:410-416 | Nothing, and nothing changes, if reading is shut; else the next message, with the runs of `close` it takes |
| WebSocket.Writer.SendFrame | src/ws/stream.rs:428-512 | A refused call changes neither state nor wire; an accepted one has the state, the bytes and the run of `close` of `Prepare`, and a short write is reported unless `close` did it |
| WebSocket.Writer.Transmit | src/ws/stream.rs:469-511 | Header, close code and payload go out in this order; the close state changes for a Close only |
| WebSocket.Writer.HeaderInto16 | src/ws/stream.rs:469-483 | No `unwrap` on the sixteen-byte array fails |
| EndToEnd.SentAsFrame | src/ws/stream.rs:435-485 | The bytes of a call are one frame; for a Close the last two bytes lie outside it |
| EndToEnd.TakesDataCall | src/ws/stream.rs:355-394 | The peer takes a text or binary call as the fragment, the whole message or the excess it is, and both machines stay in step |
| EndToEnd.TakesControlCall | src/ws/stream.rs:315-354 | The peer takes a ping, pong or close call in its place, and the message under way is not disturbed |
| EndToEnd.DeliversMeaning | src/ws/stream.rs:301-512 | For all lists of calls in either role, from any states in step: the peer's run over the wire is what the calls mean, refused calls counting for nothing, up to a Close, the end or the first message over the limit |
| EndToEnd.DeliversFromStart | src/ws/conn.rs:28-40 | The same from the start of a connection |
| EndToEnd.EndsWellIffFits | src/ws/stream.rs:301-404 | Never a protocol error: the peer's run over the wire of any calls ends without error if and only if each message and each control frame is within its limit, and with `MessageTooLong` otherwise |
| EndToEnd.KeysDoNotMatter | src/ws/stream.rs:325-381 | A server's run over any frames does not depend on their mask keys |
| EndToEnd.SilentAfterClose | src/ws/stream.rs:428-431 | After a Close nothing more is written |
| EndToEnd.ForwardedMessageArrives | src/ws/mod.rs:122-132 | A delivered message, Close apart, can be forwarded and arrives as it was |
| EndToEnd.CloseCodeArrivesIff | src/ws/stream.rs:332-338 | The status code arrives if and only if the reason has at least two bytes or the code is 1005 |
| EndToEnd.CloseReasonCut | src/ws/stream.rs:435-440 | The peer gets the reason without its last two bytes |
| EndToEnd.CloseRoundTripsIff | src/ws/stream.rs:435-483 | A Close round-trips if and only if the code is 1005 and the reason is empty or `[3]` |
| EndToEnd.CloseLeavesTwoBytes | src/ws/stream.rs:435-483 | After the peer has read the Close the last two bytes written are left over |
| Fragmentation.WriterFragmentsWell | src/ws/stream.rs:453-467 | Over all runs: a data frame is a continuation if and only if the message before it is unfinished, and `last_sent_message_op` is the opcode of the message under way, if any |
| Fragmentation.WireIsEmitted | src/ws/stream.rs:428-512 | For every list of calls the wire is these frames, encoded one after the other, and two more bytes if and only if the last of them is a Close |
| Fragmentation.ClientsMask | src/ws/stream.rs:442-444 | Over all runs a client masks every frame it sends, and a server none |
| Fragmentation.ReaderReassembles | src/ws/stream.rs:355-394 | After any error-free frames, with any keys, the reader holds the opcode and the concatenated payloads of the message under way, and the frames were well fragmented |
| Fragmentation.ContinuationErrorIff | src/ws/stream.rs:234-245 | A continuation error is raised if and only if the frame breaks the grammar |
| CloseProtocol.StepKeepsInvariant | src/ws/stream.rs:120-150 | Every step of either half keeps the invariant and moves the close state upward only |
| CloseProtocol.EveryRun | src/ws/stream.rs:487-510 | Over all interleavings: at most one Close is sent and no frame after it, each half runs `close` at most once and only with both sides shut |
| CloseProtocol.ClosingsExactly | src/ws/stream.rs:340-348 | When a Close went both ways, `close` ran once, or twice if the halves overlapped; it never ran twice otherwise |
| CloseProtocol.SequentialClosesOnce | src/ws/stream.rs:340-348 | Without overlap `close` runs at most once, and exactly once when a Close went both ways |
| CloseProtocol.SplitHalvesCloseTwice | src/ws/conn.rs:98-114 | Split halves can both run `close` |
| CloseProtocol.ReadIsRun | src/ws/stream.rs:209-256 | A call of the reader is a run of its steps, with the same close state and number of closings |
| CloseProtocol.SendIsRun | src/ws/stream.rs:487-498 | An accepted call of the writer is a run of its steps, likewise |
| Conversation.SendEach | src/ws/stream.rs:428-512 | Any calls of a writer, one after the other, put `SendAll` on the wire, unless a call reports a short write or `close` ran |
| Conversation.ReceiveAll | src/ws/stream.rs:406-417 | Calling `next` until it returns nothing or an error ends, and yields `Receive` |
| Conversation.Converse | src/ws/conn.rs:28-40 | Whatever is called on a new writer, a new reader on the other side, with any buffer and any network, receives what the calls mean, and ends well if and only if all is within its limit |
| Duplex.SendsAlike | src/ws/stream.rs:127-132 | What an end has read does not change what its writer sends, so long as it may write |
| Duplex.ReceivesAlike | src/ws/stream.rs:120-125 | What an end has sent does not change what its reader yields, so long as it may read |
| Duplex.StepKeepsInvariant | src/ws/stream.rs:301-512 | Every call, read or leave of either end keeps, in both directions, that what was got and what is under way carry the meaning of all calls whatever is still called, and that the close state and the count of `close` tell what was sent and received |
| Duplex.BothWays | src/ws/stream.rs:301-512 | For every run of two ends, in any order of calls, reads and leaving: what each end has got and would get from the bytes under way is what all calls on the other mean, in order and with nothing else, and the only error is `MessageTooLong` |
| Duplex.Settled | src/ws/stream.rs:301-404 | An end that has read what there is has got everything the other said, or failed if and only if that did not fit its limit; after the other's Close or leaving it is shut for reading |
| Duplex.Settles | src/ws/stream.rs:406-417 | From every state of two ends, reading on comes to an end where neither can read |
| Duplex.BothClose | src/ws/stream.rs:340-348 | After every run in which both ends called a Close: reading on ends, and then each end is shut on both sides, has run `close` exactly once and has got exactly what the other said, if and only if that fits its limit |
| Duplex.ReadIgnoresLater | src/ws/stream.rs:301-395 | What is read from the frames under way does not depend on what the peer writes later |
| Duplex.CallStep | src/ws/stream.rs:428-512 | A writer and a reader on one shared state take a call as an end does, and the bytes go to the peer, unless the write is short |
| Duplex.ReadStep | src/ws/stream.rs:301-395 | And a read, whatever the peer writes later and for every fill |
| Chunked.SizeFieldIff | src/http/body.rs:91-131 | A size is read if and only if 1 to 32 hexadecimal digits come first, something follows them and the value fits 64 bits; otherwise it is known which error is raised |
| Chunked.ReadsPrintedHex | src/http/body.rs:91-131 | The value read from a number printed in hexadecimal, in either case, is that number |
| Chunked.SixteenDigits | src/http/body.rs:117-131 | Without leading zeros, a size fits 64 bits if and only if it has at most 16 digits |
| Chunked.DigitsAre | src/http/body.rs:103-124 | The digits are those of `0123456789abcdef` and its capitals, each with its place as its value |
| Chunked.DecodesEncoding | src/http/body.rs:83-201 | Decoding any encoded chunks followed by anything gives their data and stops at the first trailer byte |
| Chunked.OnlyEncodingsDecode | src/http/body.rs:83-201 | Conversely, whatever is decoded without error is such an encoding |
| BrokenBody.DecodesBroken | src/http/body.rs:91-201 | Whole chunks and then a bad size, an unended size line, cut-off data or data without a line end: the data before the cut is handed out, then comes the error of that cut, and what stays on the connection is known |
| BrokenBody.BreaksOnlySo | src/http/body.rs:91-201 | Every chunked body that fails is of one of these four forms |
| BrokenBody.ReadsBrokenBody | src/http/body.rs:164-201 | Any run over such a body hands out that data and ends in that error at that position |
| Body.Body.ReadBytes | src/http/body.rs:83-89 | Takes bytes off the front of what is pending, none only if none are wanted or left |
| Body.Body.CountDigits | src/http/body.rs:93-115 | For every fill, counts the digits, up to 33 of them |
| Body.Body.ReadChunkSize | src/http/body.rs:91-131 | For every fill, yields the size field and consumes exactly its digits, or raises the error of the size field, having consumed exactly the digits looked at, and stays in it |
| Body.Body.SkipLine | src/http/body.rs:133-149 | For every fill, consumes up to and including the first newline, or everything |
| Body.Body.ReadUntilNewline | src/http/body.rs:133-162 | And moves to the state that follows the line |
| Body.Body.ReadData | src/http/body.rs:171-190 | Hands out data of the chunk and keeps what is still to come |
| Body.Body.ReadChunks | src/http/body.rs:164-201 | At most four turns; hands out at least a byte, reaches the trailers, or fails, and keeps what is still to come |
| Body.Body.Read | src/http/body.rs:248-290 | The same for every kind of body; `remaining` goes down by what is handed out, and bytes beyond it in the buffer are not touched |
| BodyRuns.RunConserves | src/http/body.rs:246-291 | At every moment of every run, what was handed out and what is to come make up the body |
| BodyRuns.CompleteRun | src/http/body.rs:246-291 | A run to its end hands out the body, ends as the body ends, well or with its error, and leaves its state and exactly the bytes after it |
| BodyRuns.RunsAgree | src/http/body.rs:91-201 | Two complete runs over the same bytes, even malformed ones, agree on data, outcome, the state they end in and stream position |
| BodyRuns.ReadsEncodedBody | src/http/body.rs:83-201 | Any run over encoded chunks hands out their data, then 0 in state `Trailers` at the first trailer byte |
| BodyRuns.RunsAreShort | src/http/body.rs:246-291 | With non-empty buffers a run ends after at most one call per byte of the body and one more |
| BodyRuns.ErrorsStay | src/http/body.rs:112-126 | An error is reported again by every later read |
| BodyRuns.LengthConserved | src/http/body.rs:236-243 | At every reachable state bytes handed out plus `remaining` is the declared length, and the stream stands right after them |
| BodyRuns.LengthEnds | src/http/body.rs:267-288 | A run ends with 0 exactly at the declared length, or with `PartialFile` if the stream is shorter |
| BodyRuns.ConnectionEnds | src/http/body.rs:255-265 | A body of unknown length is everything the connection holds until it ends: any run hands out exactly that, then 0, and nothing is left |
| BodyRuns.NothingMore | src/http/body.rs:251 | An empty or finished body hands out nothing and leaves the connection untouched |
| BodyRuns.ReadAll | src/http/body.rs:246-291 | Reading to the end through any buffers is such a run, and it ends |
| BodyRuns.ReadToEnd | src/http/body.rs:246-291 | And hands out the body, with its end or error, and leaves the state and position after it; for a body up to the end of the connection that is every byte of it, for one of known length the declared bytes or `PartialFile` |
| Lines.ScanInPlace | src/http/transfer.rs:219-244 | For every network, the loop comes to what the scan as written comes to, with as much buffered, and consumes nothing |
| Lines.ReadLineInPlace | src/http/transfer.rs:216-257 | For every network, returns exactly the line or error that the scan as written makes of the stream |
| Lines.ScanRightIff | src/http/transfer.rs:219-244 | The scan finds the first line, or the right error, if and only if every look comes in time |
| Lines.ReachIsInTime | src/http/transfer.rs:219-244 | A newline that is buffered once a fill has added to a buffer that was not empty is found: with the first two fills, if the buffer was empty |
| Lines.ReachStays | src/http/transfer.rs:303 | Consuming a line in reach leaves in reach what was |
| Lines.LateLine | src/http/transfer.rs:222-229 | A line that is not in time is not found, or runs on to a later newline |
| Lines.ThreePiecesCanFail | src/http/transfer.rs:222-229 | A line in three pieces can be missed or make the index run out of range |
| Lines.FullBufferCanLookEnded | src/http/transfer.rs:239-243 | A buffer full of a longer line can be reported as the end of the stream |
| Lines.OutOfReach | src/http/transfer.rs:222-229 | After two misses in a buffer that was not empty the index is out of range, if the next fill does not make up for what was there |
| Lines.EveryLineCanFail | src/http/transfer.rs:222-229 | For every line of more than three bytes there is a network, starting on an empty buffer, for which that happens |
| HeadText.FirstLineIs | src/http/transfer.rs:246-256 | Of whole lines: the text before the first byte 10, and before one 13 in front of it, or an error if it is not UTF-8 |
| HeadText.NoFirstLine | src/http/transfer.rs:239-243 | Of whole lines: without a byte 10 in what the buffer holds, too long if that is full and cut off otherwise |
| HeadText.ParsesAnyField | src/http/transfer.rs:285-300 | Any name between blanks, a colon and any value after blanks: lower-case name and value, or the error of the one that is not a token or has control characters |
| HeadText.ParsesBareName | src/http/transfer.rs:287-300 | Without a colon the line is a name without value, or the name is invalid |
| HeadText.LastStands | src/http/transfer.rs:325-336 | Of several fields of one name the last one stands, without a separator as an empty value |
| HeadText.BlockByLines | src/http/transfer.rs:310-338 | For every network, by the line that is scanned: it fails with its own error, ends the block, or is charged and put into the map |
| HeadText.VersionIff | src/http/transfer.rs:259-269 | A version is eight bytes whose last three are `0.9`, `1.0`, `1.1`, `2.0` or `3.0` |
| HeadText.StatusIff | src/http/transfer.rs:275 | A status code is three digits, the first not 0, with their decimal value |
| HeadText.OnlySuchLines | src/ws/transfer.rs:78-89 | A request line that is parsed is GET, an address, a version and, after a blank, anything |
| HeadText.RequestLineIff | src/ws/transfer.rs:95-114 | For every network, by the line that was scanned: refused as invalid if and only if it does not parse, with `UnexpectedVersion` if and only if it parses to another version than 1.1, as too long if it is longer than 131072 bytes |
| HeadText.AcceptedRequest | src/ws/transfer.rs:95-107 | For every network, a request that is let in has such a line, and its version ends in `1.1` |
| HeadText.StrangeRequestLine | src/http/transfer.rs:259-269 | `GET / XXXXX1.1 X` is let in |
| HeadText.PrintedRequestIff | src/ws/transfer.rs:78-107 | A printed request line read in time is refused as invalid if and only if its method is not GET or it has no version, and with `UnexpectedVersion` if and only if its version is neither that nor 1.1 |
| HeadText.ResponseVersionIff | src/http/transfer.rs:377-379 | For every network, a response whose status was read is refused with `UnexpectedVersion` if and only if its version is not between `min_version` and `max_version` |
| HeadText.AcceptedResponse | src/http/transfer.rs:377-379 | For every network, a response that is let in has a version in that range |
| HeadText.HeadlessResponse | src/http/transfer.rs:347-363 | Fewer than five bytes fail; five other bytes than `HTTP/` are a body of 200 HTTP/0.9 if the range begins with 0.9, and are refused with `UnexpectedVersion` otherwise |
| HeadText.NoStatusLine | src/http/transfer.rs:365-373 | For every network, a status line that cannot be read fails with the error of the line, or as invalid if and only if it does not parse |
| HeadText.TakenStatusLine | src/http/transfer.rs:271-276 | For every network, a status line that is taken begins with `HTTP/`, the version, a blank and the three digits of the code |
| HeadText.PrintedVersionIff | src/http/transfer.rs:377-383 | A printed status line read in time is refused with `UnexpectedVersion` if its version is out of range; of HTTP/0.9 it has no head |
| HeadText.HeadParts | src/http/transfer.rs:173-198 | For every method, address and version: split at newlines, what is sent is the request line, a line `name: value` for every field in order, and a blank line; split at blanks, the request line is exactly method, address and, from HTTP/1.0 on, version |
| HeadText.RequestLineParts | src/http/transfer.rs:175-188 | The same of the request line alone, for methods and addresses without blanks |
| Headers.ReadHeaderLine | src/http/transfer.rs:280-306 | For every network, the field is that of the scanned line; consumes exactly that line if it is well formed, and nothing otherwise |
| Headers.ReadHeaders | src/http/transfer.rs:310-338 | For every network, map and stream position, or the error, are those of `HeadSeen`; no subtraction wraps |
| Headers.HeadInTime | src/http/transfer.rs:310-338 | When every line is scanned in time, that is the map or error of the whole lines of the stream |
| Headers.LinesInReach | src/http/transfer.rs:310-338 | Every line is, when the block is in reach |
| Headers.ReadRequestLine | src/ws/transfer.rs:95-116 | For every network, the budget left or the error is that of the scanned line, and a good line is consumed |
| Headers.HandleRequest | src/ws/transfer.rs:92-117 | For every network, map and stream position, or the error, are those of `RequestSeen` |
| Headers.RequestSeenInTime | src/ws/transfer.rs:92-117 | In time, that is the request of the whole lines of the stream |
| Headers.RequestInReach | src/ws/transfer.rs:120-122 | A request is in time when it is in reach, as with the first two fills of the new reader the server starts with |
| Headers.PrefixMatches | src/http/transfer.rs:347-357 | For every fill, tells whether the stream begins with `HTTP/`, having filled no more than that takes |
| Headers.ReadStatus | src/http/transfer.rs:347-373 | For every network, version, status code and size are those of `StatusSeen`, and exactly the status line is consumed |
| Headers.ReadResponse | src/http/transfer.rs:342-391 | For every network, status, version, and map and stream position, or the error, are those of `ResponseSeen` |
| Headers.ResponseSeenInTime | src/http/transfer.rs:342-391 | In time, that is the response of the whole lines of the stream |
| Headers.ResponseInReach | src/http/transfer.rs:342-391 | A response is in time when it is in reach once its first five bytes are there |
| Headers.ParsesLines | src/http/transfer.rs:310-338 | Field lines and a blank line give the map of the fields and leave what follows, unless the field lines exceed the budget, when they are refused |
| Headers.OnlyLinesParse | src/http/transfer.rs:310-338 | Conversely, an accepted head consists of such lines within the budget, and exactly they are consumed |
| Headers.BlockWithinBudget | src/http/transfer.rs:310-338 | For every network, in time or not: an accepted block has taken fields within the budget, and exactly they and a blank line are consumed |
| Headers.RequestWithinBudget | src/ws/transfer.rs:92-117 | For every network: an accepted request keeps request line and field lines together within the limit, and exactly they and the blank line are consumed |
| Headers.ResponseSeenWithinBudget | src/http/transfer.rs:342-391 | For every network: an accepted response keeps status line and field lines together within `maximum_header_size`, and exactly they and the blank line are consumed |
| Headers.ResponseWithinBudget | src/http/transfer.rs:342-391 | Of whole lines: a response is accepted only if it consists of a status line, field lines and a blank line of which it takes no more; it keeps status line and field lines together within `maximum_header_size`, and exactly they and the blank line are consumed |
| PrintedHead.SendHead | src/http/transfer.rs:161-198 | Prints the request line, every header in the order of the map and the blank line |
| PrintedHead.ParsesPrintedField | src/http/transfer.rs:285-300 | A printed field is parsed into its name, in lower case, and its value |
| PrintedHead.ParsesPrintedVersion | src/http/transfer.rs:259-269 | A printed version is parsed into itself |
| PrintedHead.ParsesPrintedRequestLine | src/ws/transfer.rs:78-89 | A printed GET request line is parsed into its version |
| PrintedHead.ParsesPrintedStatusLine | src/http/transfer.rs:271-276 | A printed status line is parsed into its version and status, whatever the reason |
| PrintedHead.BlockRoundTrip | src/http/transfer.rs:310-338 | Any printed fields are parsed into their map with everything after them unread, if and only if they are within the budget |
| PrintedHead.RequestRoundTrip | src/ws/transfer.rs:92-117 | The server gets from the client's head the client's header map, walked in any order, and reads nothing beyond it; the head is refused as too long exactly when it is |
| PrintedHead.RequestArrives | src/ws/transfer.rs:92-122 | For every network, a request in reach is handled as it was sent, or refused as too long exactly when it is |
| PrintedHead.SendAndHandle | src/ws/transfer.rs:92-122 | So for the client's printer against the server's parser on a new reader: the header map arrives, and nothing after the head is read |
| PrintedHead.RequestCanFail | src/ws/transfer.rs:95 | For every request there is a network for which it does not arrive |
| PrintedHead.ResponseRoundTrip | src/http/transfer.rs:342-391 | The client gets from a printed response its version, status and fields, and reads nothing beyond the head, so that the first frames after a 101 stay for the WebSocket; refused as too long exactly when it is |
| PrintedHead.ResponseArrives | src/http/transfer.rs:342-391 | For every network, a response in reach once its first five bytes are there is parsed as it was printed |
| LateLines.LateEmptyField | src/http/transfer.rs:285-300 | A late field without a value is refused, or takes the line of the next field as its value |
| LateLines.NameKept | src/http/transfer.rs:310-338 | No later line, in time or not, sets a name that is not among the names of the fields left |
| LateLines.BlockSeenOnlyInTime | src/http/transfer.rs:310-338 | A printed block, fields without values included, is read into all its fields only if every line is in time |
| LateLines.RequestArrivesIff | src/ws/transfer.rs:92-117 | A request that is not too long arrives as it was sent if and only if every line of it is scanned in time |
| LateLines.RequestCanArriveWrong | src/ws/transfer.rs:92-117 | Of every request that begins with a field without a value and fits the buffer there is a network for which the server gets, without an error, a map in which that field has swallowed the next |
| LateResponse.ResponseArrivesIff | src/http/transfer.rs:342-391 | A response of distinct fields that is not too long arrives as it was sent if and only if its status line and every line after it are scanned in time |
| LateResponse.ResponseCanFail | src/http/transfer.rs:342-391 | For every response there is a network for which it ends in an index out of range |
| LateResponse.ResponseCanLoseField | src/http/transfer.rs:342-391 | Of every response with a field that fits the buffer there is a network for which the client gets its status and all fields but the first, and no error |
| LateResponse.RepeatedNameHidesLoss | src/http/transfer.rs:310-338 | If the name of the first field comes again, there is a network for which the response arrives as it was sent although its status line was late |

## Left out

- Failures of the socket other than its end: every read and write error of the library.
- Async scheduling, timeouts, polling and the shutdown of the socket; `close` is counted, and the await points appear as the steps of `CloseProtocol`.
- A payload that ends before its declared length: see the assumption on `read_fully`.
- How `WebSocket` lends its fields to readers and writers by reference: here each half owns its fields and both share one object.
- `set_max_message_length` during a message: the limit is fixed in a run.
- The upgrade handshake beyond its heads: base64, SHA-1 and the header checks are library calls and equality tests.
- `Frames`, which only wraps the reader: its methods are methods of `Reader` here. A `ControlFrame` is the bytes that its `data` shows.
- `Body::new`, which picks the kind of body from the response, and `read_trailer`, which is one header line: they add only easy members.
- TLS, DNS, files, connecting, redirects, logging and statistics.
- Trim: white space beyond ASCII, which `str::trim` also removes, is not modelled.
- ToName: the length limits of the header library are not modelled.
- RequestRoundTrip: values are ASCII without leading blanks and every line fits the buffer, since the parser trims leading blanks, refuses text that is not UTF-8 and needs a whole line at once; the same goes for `BlockRoundTrip` and `ResponseRoundTrip`.
- Body.Body.ReadChunkSize: the reader's buffer holds 33 bytes or more; with a smaller one a long size field would read as `PartialFile`.
- KeysDoNotMatter: for a server only, since a client refuses every masked frame.
- BothWays: no short writes; an end finishes a read it has begun before it does anything else, stops reading at an error, and what it wrote before leaving still arrives. `CloseProtocol` has the steps within a read; the same goes for `BothClose`.
