# Verified model of an HTTP/1.x head parser and chunked decoder

The project models two connected cores of the repository and proves what they compute:

- the in-place streaming decoder for chunked transfer coding (section 4.1 of RFC 7230), in its
  Rust form (`src/chunked.rs`: three dispatch chains with local variables and one exit) and in
  its C form (`reference/picohttpparser.c`: a `switch` whose cases fall through and update the
  caller's record as they go);
- the request, response and header-block parsers (sections 3.1 and 3.2 of RFC 7230), again in
  the Rust form (`src/core.rs`, `src/request.rs`, `src/response.rs`, the publishing seam of
  `src/ffi.rs`) and in the C form, with and without its 16-byte vector scan.

Each implementation is imperative Dafny over the caller's memory and is proved equal, on every
input, to one shared specification. The theorems are then about that specification, and the
equality carries them to both implementations.

## Layout

| files | contents |
|---|---|
| `Bytes.dfy`, `ByteMachine.dfy` | bytes, 64-bit words, verdicts; folding a one-byte transition |
| `Alphabet.dfy` | every byte class, delimiter and number the parsers name, written out |
| `ChunkedSpec.dfy` | the decoder as a fold of one transition per byte, and one call of it |
| `ChunkedRecord.dfy`, `Chunked.dfy`, `ChunkedC.dfy` | the caller's record and buffer, the Rust decoder, the C decoder |
| `ChunkedDelivery.dfy`, `ChunkedLedger.dfy`, `ChunkedGrammar.dfy` | delivery in pieces, reachable records and accounting, the language |
| `ChunkedCaller.dfy` | an encoder, and what a caller of either decoder sees of any call, in bytes |
| `HeadSpec.dfy` | the head parsers and the gate as functions of the buffer |
| `Swar.dfy`, `HeadSlots.dfy`, `HeadCore.dfy`, `HeadRequest.dfy`, `HeadResponse.dfy`, `HeadFfi.dfy` | the Rust head parsers over the caller's outputs |
| `HeadC.dfy`, `HeadRefinement.dfy` | the C head parsers in both builds, and their agreement with Rust |
| `HeadFinality.dfy`, `HeadStreaming.dfy`, `HeadPartial.dfy` | verdicts under more input: final, streamed through the gate, asking for more |
| `HeadGate.dfy`, `HeadRefusal.dfy` | what the gate decides and when heads are refused, in bytes |
| `HeadProtocol.dfy`, `HeadGrammar.dfy`, `HeadLines.dfy` | the order of writes; printing and parsing of header blocks, requests and responses |
| `HeadPublished.dfy`, `HeadReadBack.dfy`, `HeadCaller.dfy` | what every run publishes, what the header array then reads as, and what a caller of either implementation finds in its memory, in bytes |
| `Trailers.dfy` | the decoder's trailers against the header parser |

`dafny verify dfyconfig.toml` checks everything.

## Main results

- One call of either decoder leaves the record, the verdict, the decoded length and the whole
  buffer that `ChunkedSpec.Call` gives; so the two dispatch forms agree on every record with a
  digit count up to 16, including records no call can leave.
- Cutting a message into calls changes nothing, unless the accounting rule fires before the
  last piece; it changes the verdict exactly when the rule fires early on a message that as a
  whole is not refused.
- A call from a zeroed record completes exactly on the inputs that begin with a printed message
  of an explicit grammar; decoding inverts printing and printing inverts decoding. The grammar
  asks for more exactly when some continuation completes.
- Whatever pieces a sender encodes, with sizes in hexadecimal of either letter case, a fresh
  decoder of either implementation delivers in place; the verdict, the totals and the byte refused
  are exact on every other input.
- In every reachable record the chunk size is the exact number written by the digits read, the
  wrapping arithmetic never wraps, and the totals account for every byte.
- The word-at-a-time and vector scans equal the plain byte scan.
- The C and Rust head parsers leave the same outputs and header slots on every input, error
  paths included.
- `Ok` and `Malformed` are final under every extension of the input, and nothing published on
  the way to `Partial` is taken back.
- A head that does not parse is refused if and only if nothing can complete it, except for the
  five shapes, given in bytes, that wait in vain.
- The gate passes if and only if two line breaks in a row come before any bare carriage return; an
  attempt it holds back publishes nothing.
- Streaming a head in any pieces through the gate gives the outcome of one cold parse, the
  caller's header array included.
- Header blocks, requests and responses parse exactly when they begin with a printed head of an
  explicit grammar; what is read back through the published spans is what was printed, at every
  capacity.
- After any call of either implementation, whatever the input, the verdict and the hint, every
  output and every slot of the caller's header array is given in bytes: what is there is pointed
  at, what is not there is null, -1, 0 or untouched.
- Decoding that consumes trailers agrees with decoding that leaves them to the header parser,
  whenever that accepts them; which trailer sections it accepts is an exact condition on bytes.

## Where the code and its documentation differ

The model follows the code in each case.

- `reference/picohttpparser.c:691` speaks of overhead above 80 percent; the code at line 694
  refuses payload below a quarter of the total. `ChunkedLedger.RuleOverCalls` states the code's rule.
- `src/core.rs:16-21` says `Partial` means a strict prefix of a valid message. That is true of
  header blocks (`HeadPartial.PartialIsExactForBlocks`) and false of whole heads
  (`HeadPartial.HopelessPartials` gives four inputs). `HeadPartial.PartialForRequests` and
  `HeadPartial.PartialForResponses` give the exact condition, and `HeadRefusal.RequestVerdict` and
  `HeadRefusal.ResponseVerdict` name all inputs that wait in vain. `Malformed` is as documented.
- A header block that is empty and written CR LF can be held back by the gate, because it has
  one line break where the gate waits for two. `HeadStreaming.BlockStreamsIffNoCr` shows that
  this is the only block the gate can delay.
- `reference/test.c:446` wants trailers treated as the header parser treats them. Every header
  block is consumed as trailers (`Trailers.TrailersAgree`), but the decoder consumes more.
  `Trailers.ConsumedTrailers` gives the exact condition under which the two agree.
- The comment at `src/core.rs:170-174` allows the word test to flag clean words; it never does
  (`Swar.FilterExact`). The unit test at `src/core.rs:353-364` leaves six lanes zero, so its
  assertion is never reached (`Swar.PairSweepIsAlwaysFlagged`).
- The test for an empty target at `src/request.rs:100` never decides: a target starts at a byte
  that is not a space, so it is never published empty (`HeadPartial.TargetNeverEmpty`).

## Model

| member | source | states |
|---|---|---|
| Bytes.WrapIsModulo | src/chunked.rs:63-65 | the model's wrap-around is reduction modulo 2^64, for all integers |
| Alphabet.Separators | src/core.rs:117-127 | the six separators are tab, line feed, carriage return, space, colon and semicolon |
| Alphabet.Numbers | src/chunked.rs:17-26 | the states are 0 to 7 in their order, sizes have 16 digits, the rule starts at 102400, the codes are -2 and -1 |
| Alphabet.DigitExact | src/core.rs:262-265 | the digits are "0123456789", and their values their places in it |
| Alphabet.TcharExact | src/core.rs:53-73 | a token character is a digit, a letter or one of fifteen marks, for all bytes |
| Alphabet.ClassesExact | src/core.rs:88-93 | every class of bytes a scanner runs over, as byte ranges |
| Alphabet.HexExact | src/chunked.rs:37-44 | exactly the 22 hexadecimal digits have a value, and it is their place in "0123456789abcdef" or "0123456789ABCDEF" |
| Alphabet.HexOfValue | src/chunked.rs:37-44 | the digit in the place of a value has that value, in both letter cases |
| Alphabet.SizeTerminatorExact | src/chunked.rs:97-104 | a size is ended by a space, tab, semicolon, carriage return or line feed, and nothing else |
| Alphabet.VersionPrefixExact | src/core.rs:262 | a version begins with `HTTP/1.` |
| ByteMachine.RunSplit | src/chunked.rs:81-261 | reading a concatenation is reading the first part and, if that wants more, the second from where it stopped |
| ChunkedRecord.PhrChunkedDecoder.constructor | src/ffi.rs:40-59 | the zero-filled record is the start of the state machine with zero totals |
| ChunkedRecord.PhrChunkedDecoder.IsInData | src/chunked.rs:29-35 | for every record a call has left: true exactly when the next byte, whatever it is, will be delivered as payload |
| ChunkedRecord.CopyWithin | src/chunked.rs:174-176 | an overlapping downward move puts the old source bytes at the target and changes nothing else |
| ChunkedRecord.JoinPayload | src/chunked.rs:169-192 | moving arrived payload down extends the decoded prefix by exactly those bytes and keeps every later byte as received |
| ChunkedRecord.CloseGap | src/chunked.rs:273-276 | at exit the buffer is payload, then the unread bytes, then what was left at its end |
| ChunkedSpec.DataLeads | src/chunked.rs:167-193 | consuming payload in bulk is consuming it byte by byte through the state machine |
| Chunked.ReadSize | src/chunked.rs:84-126 | stops with the verdict of the byte-wise run, or before the byte that ends the digits with the size read so far |
| Chunked.SkipExtension | src/chunked.rs:127-145 | stops with the verdict of the byte-wise run, or behind the carriage return |
| Chunked.SizeChain | src/chunked.rs:82-164 | entered at any of its three states, ends with the run's verdict or in a later state that the run reaches, with input consumed |
| Chunked.ReadData | src/chunked.rs:166-193 | delivers all of the chunk or all that arrived, compacted, with the count of bytes left that the run has |
| Chunked.ReadDataEnd | src/chunked.rs:194-215 | CR and LF behind the payload, or the run's refusal at the byte that is wrong |
| Chunked.DataChain | src/chunked.rs:165-215 | entered at any of its three states, ends with the run's verdict or back at a chunk size, with input consumed |
| Chunked.TrailerChain | src/chunked.rs:216-253 | trailer lines end with the run's verdict or at the next line head, with input consumed |
| Chunked.Dispatch | src/chunked.rs:81-261 | the three-chain loop computes the byte-wise run from any record; each round consumes input; payload stays compacted in front of untouched unread bytes |
| Chunked.Epilogue | src/chunked.rs:262-295 | the single exit publishes the state, closes the gap and applies the accounting rule only when input ran out |
| Chunked.DecodeChunked | src/chunked.rs:56-296 | record, verdict, decoded length and whole buffer are those of the specification, for every record and buffer |
| ChunkedC.CaseSize | reference/picohttpparser.c:554-586 | the size case updates the record as the run does and falls through with the terminator unread |
| ChunkedC.CaseExt | reference/picohttpparser.c:588-601 | the extension case ends with the run's verdict or falls through behind the carriage return |
| ChunkedC.CaseExpectLf | reference/picohttpparser.c:603-619 | the line feed leads to data, to trailers, to completion or to refusal as in the run |
| ChunkedC.CaseData | reference/picohttpparser.c:621-637 | the data case moves payload and updates the record as the run does |
| ChunkedC.CaseDataCr | reference/picohttpparser.c:639-647 | the CR behind data, or the run's verdict |
| ChunkedC.CaseDataLf | reference/picohttpparser.c:649-658 | the LF behind data, or the run's verdict |
| ChunkedC.CaseTrailHead | reference/picohttpparser.c:659-668 | the start of a trailer line, completion on the empty one, or the run's verdict |
| ChunkedC.CaseTrailMid | reference/picohttpparser.c:670-679 | the rest of a trailer line, or the run's verdict |
| ChunkedC.HeaderCases | reference/picohttpparser.c:554-619 | entering at a stored state and falling through equals the run |
| ChunkedC.DataCases | reference/picohttpparser.c:621-658 | entering at a stored state and falling through equals the run, payload compacted |
| ChunkedC.TrailerCases | reference/picohttpparser.c:659-679 | entering at a stored state and falling through equals the run |
| ChunkedC.Switch | reference/picohttpparser.c:552-683 | the fall-through switch computes the byte-wise run from any record |
| ChunkedC.Exit | reference/picohttpparser.c:685-697 | the exit labels leave record, code and buffer as specified |
| ChunkedC.PhrDecodeChunked | reference/picohttpparser.c:545-698 | record, return code, decoded length and whole buffer are those of the specification |
| ChunkedC.DispatchesAgree | src/chunked.rs:74-295 | from equal records and buffers both decoders leave equal records and buffers, with the same verdict and length |
| ChunkedDelivery.SettleTwice | src/chunked.rs:281-294 | accounting for two parts in turn is accounting for both at once, wrap-around included |
| ChunkedDelivery.SplitInvariance | src/chunked.rs:56-296 | after a call that asks for more, a second call gives the verdict, leftover, joined payload and state of one call on both, and the whole record if bytes ran out |
| ChunkedDelivery.SplitUnfinished | src/chunked.rs:262-295 | the same after a call whose bytes ran out but which the accounting rule refused |
| ChunkedDelivery.RuleFiresLater | src/chunked.rs:285-290 | whether the rule fires before the last piece does not depend on how far feeding has got |
| ChunkedDelivery.DeliveryInvariance | reference/test.c:329-366 | every partition of a message gives the verdict, leftover, payload and state of one call, unless the rule fires before the last piece |
| ChunkedDelivery.EarlyRuleRefuses | src/chunked.rs:285-290 | if the rule fires before the last piece the feed is refused |
| ChunkedDelivery.DeliveryMatters | src/chunked.rs:281-294 | delivery changes the verdict if and only if the rule fires early on a message that one call does not refuse |
| ChunkedLedger.DigitNeverWraps | src/chunked.rs:107-119 | with fewer than 16 digits read, multiply-and-add in machine words is exact |
| ChunkedLedger.StepSound | src/chunked.rs:81-261 | every transition keeps the invariant of reachable states |
| ChunkedLedger.ReachableSound | src/chunked.rs:85-126 | after any calls from a zeroed record: at most 16 digits, digits only while reading a size, size below 16^digits, data only with bytes left, none left behind data or in trailers |
| ChunkedLedger.SizeIsItsDigits | src/chunked.rs:107-119 | in every record that any calls from a zeroed one leave, refused ones included, the size being read is the number written by the last bytes consumed |
| ChunkedLedger.LookaheadTruth | src/chunked.rs:29-35 | a call that asks for more has read everything, and leaves a record that is in data exactly when the next byte, whatever it is, will be payload |
| ChunkedLedger.TotalsOverCalls | src/chunked.rs:63-65 | over any run of calls whose bytes are used up, the totals are all the bytes fed and all those not delivered |
| ChunkedLedger.RuleOverCalls | src/chunked.rs:281-294 | feeding a message that does not end, in any pieces, is refused if and only if after some piece framing was at least 102400 and payload below a quarter of everything fed |
| ChunkedLedger.Conservation | src/chunked.rs:281-294 | over any run of calls that all ask for more, bytes read are framing plus payload, and framing is below 102400 or at most 3 times the payload plus 3 |
| ChunkedGrammar.SizeLineLeads | src/chunked.rs:82-145 | a printed size line leads to its own value, whatever its digits and extension |
| ChunkedGrammar.ChunksLead | src/chunked.rs:81-215 | printed chunks lead back to the start and deliver their data in order |
| ChunkedGrammar.TrailerCompletes | src/chunked.rs:216-253 | printed trailer lines and a blank line complete, consuming exactly themselves |
| ChunkedGrammar.DecodesPrinted | src/chunked.rs:81-261 | decoding inverts printing: payload is the chunk data, and exactly what follows the message is left over |
| ChunkedGrammar.SizeShape | src/chunked.rs:84-145 | a size line that does not lead to refusal is 1 to 16 digits, a valid extension and CR LF |
| ChunkedGrammar.TrailerShape | src/chunked.rs:216-253 | trailers that complete are lines that are not only carriage returns, then a blank line |
| ChunkedGrammar.MessageShape | src/chunked.rs:81-261 | whatever completes begins with a printed message |
| ChunkedGrammar.CompletedIsPrinted | src/chunked.rs:81-261 | soundness: a call that completes was given a printed message, leaves what follows it and delivers its data |
| ChunkedGrammar.Language | src/chunked.rs:81-261 | a call from a zeroed record completes if and only if the input begins with a printed message |
| ChunkedGrammar.Finish | src/chunked.rs:81-261 | from every reachable state some continuation completes |
| ChunkedGrammar.UnfinishedIsExact | src/chunked.rs:46-50 | bytes run out if and only if the call does not complete and some continuation of its input does |
| ChunkedCaller.SizesReadBack | src/chunked.rs:37-44 | every size below 2^64 printed in hexadecimal, in either letter case, has at most 16 digits and reads back as itself |
| ChunkedCaller.DecodesEncoded | src/chunked.rs:46-56 | what a sender encodes, in either letter case, decodes to the pieces it sent and leaves over exactly what follows |
| ChunkedCaller.CallVerdict | src/chunked.rs:46-50 | one call completes if and only if the input begins with a message, and otherwise is refused if and only if nothing completes it or at least 102400 bytes of framing came with payload below a quarter |
| ChunkedCaller.RefusedAtOnce | src/chunked.rs:81-261 | a refusal for framing is at the first byte no message can have there, with everything before it delivered |
| ChunkedCaller.RefusedState | src/chunked.rs:84-145 | a refused call leaves the state of the bytes before the refused one, but a line feed first ends the size in front of it, on any record |
| ChunkedCaller.CompletedState | src/chunked.rs:155-163 | a complete message leaves state 2 without trailers and 6 with them, no size and no digits |
| ChunkedCaller.TotalsOfCall | src/chunked.rs:277-295 | the totals after any call on any record, modulo 2^64, and the rule on them |
| ChunkedCaller.DecodeSent | reference/README.md:72-107 | both decoders, run on an encoded payload, leave it at the front of the buffer, what followed behind it, and its length as the code |
| Swar.FilterExact | src/core.rs:176-185 | the word test is false exactly when all eight lanes are in 0x20..0x7E, for every 64-bit word |
| Swar.PairSweepIsAlwaysFlagged | src/core.rs:353-364 | every word of the two-lane sweep is flagged, so the sweep checks nothing |
| Swar.WordTest | src/core.rs:207-234 | the test on a little-endian load is the test on the eight octets loaded |
| Swar.AllPrintable | src/core.rs:217-219 | a clean word means exactly eight printable bytes of input |
| HeadSlots.RawSink.SetName | src/ffi.rs:84-98 | writes the name pair of one slot, null for a continuation, and nothing else, and is the next write of the trace |
| HeadSlots.RawSink.SetValue | src/ffi.rs:99-105 | writes the value pair of one slot and nothing else, and is the next write of the trace |
| HeadSpec.SkipIs | src/core.rs:235-251 | a scan stops at the one position with accepted bytes before it and none at it |
| HeadCore.BuildTokenTable | src/core.rs:48-78 | the table marks exactly the tchar bytes, for all 256 values |
| HeadCore.IsComplete | src/core.rs:109-135 | the gate's loop gives the specified verdict from three bytes before the previous end |
| HeadCore.ParseToken | src/core.rs:140-158 | the position of the delimiter behind token bytes, or the specified error |
| HeadCore.PrescanPrintable | src/core.rs:207-234 | every byte skipped 16 or 8 at a time is one the exact loop accepts |
| HeadCore.GetTokenToEol | src/core.rs:187-252 | the accelerated scan gives the span, position or error of a plain byte scan, for every buffer and start |
| HeadCore.ParseHttpVersion | src/core.rs:256-266 | version digit and position, with nine bytes needed to try |
| HeadCore.Rtrim | src/core.rs:269-277 | the length up to the last byte that is not a blank |
| HeadCore.ParseLine | src/core.rs:308-333 | verdict and slot writes of one header or continuation line, on every path |
| HeadCore.ParseNext | src/core.rs:295-336 | one round: blank line, capacity or header, with progress |
| HeadCore.ParseHeaders | src/core.rs:287-338 | verdict, completed count and the whole slot array are the specified ones, errors included; the sink's own writes, in order, are the specified log and follow the write protocol |
| HeadRequest.ParsePath | src/request.rs:29-46 | the space behind target bytes, or the specified error |
| HeadRequest.SkipSpaces | src/request.rs:49-58 | the first byte behind the delimiter that is not a space |
| HeadRequest.SkipLeadingLine | src/request.rs:79-92 | past one empty line, if there is one |
| HeadRequest.ParseRequest | src/request.rs:67-121 | verdict, progress record and slots are those of the specification behind the gate, on every path; the sink's own writes follow the write protocol |
| HeadResponse.ParseStatus | src/response.rs:31-47 | three digits, published one by one, with one byte of lookahead |
| HeadResponse.SkipVersionSpaces | src/response.rs:66-81 | one space required, all spaces skipped |
| HeadResponse.ReadReason | src/response.rs:84-103 | the phrase without its leading spaces; published before it is checked |
| HeadResponse.ParseResponse | src/response.rs:51-107 | verdict, progress record and slots are those of the specification behind the gate, on every path; the sink's own writes follow the write protocol |
| HeadFfi.PhrParseRequest | src/ffi.rs:163-233 | outputs are zeroed, then hold exactly what the run published; the count is the completed headers |
| HeadFfi.PhrParseResponse | src/ffi.rs:285-347 | outputs are zeroed, then hold exactly what the run published; the count is the completed headers |
| HeadFfi.PhrParseHeaders | src/ffi.rs:384-432 | code, count and slots are those of the specification behind the gate |
| HeadC.FindCharFast | reference/picohttpparser.c:105-132 | every byte skipped in whole 16-byte blocks is outside the ranges, and a stop is at a byte inside |
| HeadC.TextRangesExact | reference/picohttpparser.c:139-141 | the line scan's ranges are exactly the bytes that end a line of text |
| HeadC.TargetRangesSound | reference/picohttpparser.c:71-94 | a byte the target scan skips is a target byte and not the delimiter |
| HeadC.TokenRangesSound | reference/picohttpparser.c:248-257 | a byte the token scan skips is a token byte and neither delimiter |
| HeadC.TokenCharMapExact | reference/picohttpparser.c:96-103 | the literal table is tchar, for all bytes |
| HeadC.UnrolledEight | reference/picohttpparser.c:148-163 | the unrolled checks stop at the first byte that is not printable |
| HeadC.FindCtl | reference/picohttpparser.c:136-180 | both builds find the same control byte as the plain scan |
| HeadC.GetTokenToEol | reference/picohttpparser.c:134-195 | both builds give the line end, length or code of the plain scan |
| HeadC.IsComplete | reference/picohttpparser.c:197-223 | the gate's loop gives the specified verdict |
| HeadC.ParseToken | reference/picohttpparser.c:245-277 | both builds equal the plain token scan |
| HeadC.AdvanceToken | reference/picohttpparser.c:71-94 | both builds equal the plain target scan |
| HeadC.ParseHttpVersion | reference/picohttpparser.c:280-296 | version, position or code as specified |
| HeadC.ParseNext | reference/picohttpparser.c:301-351 | one round of the header loop, the increment of the count included |
| HeadC.ParseHeaders | reference/picohttpparser.c:298-353 | verdict, count and the whole slot array are the specified ones |
| HeadC.ParseInt3 | reference/picohttpparser.c:225-242 | the status is written after every digit, as specified |
| HeadC.ReadReason | reference/picohttpparser.c:452-469 | the loop without a bound stops at the line break at the latest, before the length can pass zero |
| HeadC.PhrParseRequest | reference/picohttpparser.c:401-427 | code, outputs, count and slots are those of the specification behind the gate, in both builds |
| HeadC.PhrParseResponse | reference/picohttpparser.c:474-498 | code, outputs, count and slots are those of the specification behind the gate, in both builds |
| HeadC.PhrParseHeaders | reference/picohttpparser.c:500-519 | code, count and slots are those of the specification behind the gate, in both builds |
| HeadRefinement.RequestsAgree | src/request.rs:67-121 | on every input and hint, Rust and either C build leave the same code, outputs, count and slots |
| HeadRefinement.ResponsesAgree | src/response.rs:51-107 | on every input and hint, Rust and either C build leave the same code, outputs, count and slots |
| HeadRefinement.BlocksAgree | src/ffi.rs:384-432 | on every input and hint, Rust and either C build leave the same code, count and slots |
| HeadFinality.HeadersFinal | src/core.rs:287-338 | a block's final verdict stays with its writes under every extension; writes only grow; success after Partial ends beyond the old input |
| HeadFinality.VerdictsAreFinal | src/core.rs:15-22 | the same for requests, responses and blocks with everything they publish |
| HeadStreaming.HeadShape | src/core.rs:107-108 | a head that parses, or a block with a header, ends with two line breaks and has no bare carriage return |
| HeadStreaming.GatePasses | src/core.rs:109-135 | started before the second of two line breaks, the gate passes |
| HeadStreaming.GateDoesNotRefuse | src/core.rs:109-135 | on a part of a well-formed head the gate never refuses |
| HeadStreaming.PrefixVerdict | src/core.rs:15-22 | a head that parses asks for more on every shorter prefix and gives the same outcome on every longer one |
| HeadStreaming.GateIsTransparent | src/core.rs:109-135 | one attempt of a streaming caller asks for more until the head is there, then gives the cold outcome |
| HeadStreaming.StreamingEqualsOneShot | reference/README.md:33-53 | however the bytes arrive, the caller waits until they reach the end of the head and then has the cold outcome |
| HeadSlots.ApplyAgain | src/core.rs:284-286 | writing a log over what an attempt that stopped earlier left is writing it over the original array |
| HeadStreaming.StreamingLeavesOneShotSlots | reference/README.md:33-53 | the header array the caller keeps over all its attempts ends as one cold parse leaves it, and until then holds some first part of those writes |
| HeadStreaming.BlockStreamsIffNoCr | src/core.rs:109-135 | every delivery of a parsing block gives its cold outcome if and only if it does not begin with a carriage return |
| HeadGate.GateExact | src/core.rs:107-135 | the gate passes if and only if two line breaks in a row come before a bare carriage return, refuses if and only if one comes first, and waits otherwise |
| HeadGate.GatedExact | src/core.rs:109-112 | it looks from three bytes before the previous end; an attempt held back publishes nothing at all, any other is a cold parse |
| HeadPartial.PartialIsExactForBlocks | src/core.rs:16-21 | a block asks for more if and only if it does not parse and some continuation does, at any capacity |
| HeadPartial.PartialForRequests | src/core.rs:16-21 | a request that asks for more has a continuation that parses if and only if its method is not empty and the bytes behind its target can begin a version |
| HeadPartial.PartialForResponses | src/core.rs:16-21 | a response that asks for more has a continuation that parses if and only if the version, the digits and the byte behind them are right as far as they go |
| HeadPartial.HopelessPartials | src/core.rs:257 | four inputs that are told to wait though no continuation of them parses |
| HeadPartial.TargetNeverEmpty | src/request.rs:97-102 | no request publishes an empty target, whatever the verdict: the second half of the check for empty words never decides |
| HeadRefusal.RequestVerdict | src/request.rs:100-102 | a request is refused if and only if nothing completes it and it is not an empty method before the end of its target, nor a wrong version of fewer than nine bytes |
| HeadRefusal.ResponseVerdict | src/response.rs:31-103 | a response is refused if and only if nothing completes it and it is not a short wrong version, a short wrong status, nor an open line with something else than a space behind its status |
| HeadRefusal.BlockVerdict | src/core.rs:19-21 | a header block is refused if and only if nothing completes it |
| HeadProtocol.WritesFollowProtocol | src/core.rs:31-42 | in every run the log of writes, which the sink's trace is, goes name, value, name, value, slot after slot below the capacity, each span inside the buffer behind the one before, names tchar |
| HeadProtocol.SlotsInOrder | src/core.rs:287-338 | writes 2k and 2k+1 are the name and the value of slot k; completed names are not empty; slot 0 has a name |
| HeadProtocol.SpansIncrease | src/ffi.rs:65-68 | spans are in the order written and never touch |
| HeadGrammar.LineParses | src/core.rs:308-333 | a printed line, named or folded, parses to its own parts and length |
| HeadGrammar.BlockParses | src/core.rs:287-338 | a printed block at any position is parsed to its end, or refused for want of room, with exactly the writes for the lines there is room for |
| HeadGrammar.RoundTrip | src/core.rs:269-338 | printing lines then parsing gives the printed length and reads back the lines; with less room it is refused with exactly that many |
| HeadGrammar.LineShape | src/core.rs:308-333 | a line that parses is a printed one |
| HeadGrammar.ParsedIsPrinted | src/core.rs:287-338 | a block that parses was printed from valid lines, no more than there is room for, and they are what is read back |
| HeadGrammar.BlockLanguage | src/core.rs:287-338 | a block parses if and only if it begins with printed lines the caller has room for |
| HeadLines.RequestRoundTrip | src/request.rs:67-121 | the whole outcome of parsing a printed request, as a function of its parts and the capacity |
| HeadLines.RequestReadsBack | src/request.rs:9-24 | that outcome is the printed length, method, target, version and headers |
| HeadLines.RequestIsPrinted | src/request.rs:67-121 | a request that parses was printed from valid parts |
| HeadLines.RequestLanguage | src/request.rs:67-121 | a request parses if and only if it begins with a printed one the caller has room for |
| HeadLines.ResponseRoundTrip | src/response.rs:51-107 | the whole outcome of parsing a printed response, as a function of its parts and the capacity |
| HeadLines.ResponseReadsBack | src/response.rs:11-26 | that outcome is the printed length, version, status, phrase and headers |
| HeadLines.ResponseIsPrinted | src/response.rs:51-107 | a response that parses was printed from valid parts |
| HeadLines.ResponseLanguage | src/response.rs:51-107 | a response parses if and only if it begins with a printed one the caller has room for |
| HeadLines.ResponseVersion | src/core.rs:256-266 | a response that parses begins with the seven bytes of `HTTP/1.` and a digit, which is its version |
| HeadLines.RequestVersionPlace | src/core.rs:256-266 | a request that parses has these bytes behind its target and the spaces there |
| HeadPublished.MethodPublished | src/request.rs:94-95 | a method is published if and only if token characters, possibly none, run from the start of the line to a space |
| HeadPublished.PathPublished | src/request.rs:96-98 | a target is published if and only if a method is, spaces lead to it and a space ends it, even behind an empty method |
| HeadPublished.VersionPublished | src/request.rs:99-104 | a version is published if and only if the method is not empty and `HTTP/1.`, a digit and one byte more follow the spaces behind the target, whatever that byte is |
| HeadPublished.HeadersOfRequest | src/request.rs:105-120 | behind the line break of its version a request has the verdict and the writes of a block |
| HeadPublished.RequestHeaders | src/request.rs:105-120 | elsewhere it writes no headers and does not parse |
| HeadPublished.ResponseVersionPublished | src/response.rs:63-64 | the version of a response is published if and only if `HTTP/1.`, a digit and one byte more are there |
| HeadPublished.StatusPublished | src/response.rs:28-47 | the status is published if and only if a digit and four bytes are there, with the value of its leading digits: `12X` leaves 120 |
| HeadPublished.ReasonPublished | src/response.rs:84-99 | the phrase is published if and only if its line ends, without its leading spaces, even if no space introduces it |
| HeadPublished.HeadersOfResponse | src/response.rs:87-106 | behind a phrase with a space in front, or an empty one, a response has the verdict and the writes of a block; behind any other it is refused without writes |
| HeadPublished.ResponseHeaders | src/response.rs:83-103 | without a phrase a response writes no headers and does not parse |
| HeadPublished.LineInProgress | src/core.rs:308-333 | a header line that does not parse has written its name if and only if its colon is there, or a null name if it is folded, and nothing else |
| HeadPublished.BlockWrites | src/core.rs:279-286 | a block that stops, for whatever reason, has written all the complete lines before that and the name in progress |
| HeadReadBack.SlotsHold | src/ffi.rs:84-105 | after any writes in order, each slot points at what was written to it and keeps the rest of what it held |
| HeadReadBack.LogReads | src/ffi.rs:84-105 | read through its own pointers, the array shows the names and values of the writes |
| HeadReadBack.BlockLeaves | src/core.rs:279-338 | whatever a block's verdict, the array reads as its complete lines, the next slot has the name in progress and its old value, all others are untouched, and the count is the lines |
| HeadCaller.SentIsRead | reference/README.md:55-64 | a request sent whole reads back from the caller's pointers and slots as its parts, its headers as the lines there was room for, over any prior contents |
| HeadCaller.RequestCode | src/ffi.rs:108-112 | the return code of a request: the length of what was sent, or -1 exactly for what is refused, or -2 |
| HeadCaller.CallRequest | src/ffi.rs:108-233 | of either implementation, for every input and hint: all outputs and slots in bytes, the return code, and what was sent reads back |
| HeadCaller.SentResponseIsRead | reference/README.md:66-68 | a response likewise |
| HeadCaller.ResponseCode | src/ffi.rs:235-240 | the return code of a response likewise |
| HeadCaller.CallResponse | src/ffi.rs:235-347 | of either implementation, for every input and hint: all outputs and slots in bytes, the return code, and what was sent reads back |
| HeadCaller.SentBlockIsRead | reference/README.md:66-68 | a header block likewise |
| HeadCaller.BlockCode | src/ffi.rs:350-365 | the return code of a block likewise |
| HeadCaller.CallBlock | src/ffi.rs:384-432 | of either implementation, for every input and hint: the count and all slots in bytes, the return code, and what was sent reads back |
| Trailers.BlockIsTrailer | reference/test.c:446-448 | every printed header block is a printed trailer section |
| Trailers.TrailersAgree | src/chunked.rs:155-163 | if the bytes left by decoding parse as a header block, decoding that consumes trailers completes with the same payload and leaves that many bytes less |
| Trailers.LineReads | src/core.rs:308-333 | the header parser takes a line if and only if its bytes are a token, a colon and text, or a leading blank and text when not first, with at most one carriage return at the end |
| Trailers.TrailerUnique | src/chunked.rs:216-253 | input begins with one trailer section at most |
| Trailers.TrailerIsBlock | src/chunked.rs:216-253 | a trailer section parses as a header block if and only if there is room for its lines, they read as header lines and its blank line has at most one carriage return; it is then taken whole |
| Trailers.ConsumedTrailers | src/chunked.rs:155-163 | the exact converse: whenever decoding that consumes trailers completes, decoding that leaves them completes with the same payload, and the header parser takes what it left over by just the trailers if and only if they meet that condition |
| Trailers.TrailersAreLooser | src/chunked.rs:224-253 | the condition is not always met: two messages the decoder completes and the header parser refuses, one for a line without a colon, one for a blank line with two carriage returns |

## Left out

- Raw pointers, null-argument guards, `catch_unwind` and struct layout in `src/ffi.rs`: outputs are offset and length pairs, or null.
- The conversion of the consumed length to `c_int`, and of C's to `int`: return codes are unbounded integers.
- 32-bit targets and targets with unsigned `char`: machine words are 64 bits, a chunk size has at most 16 digits.
- Records outside the contract: a state outside 0 to 7 or a digit count above 16 is excluded by a precondition, as is `last_len` above the input length for C.
- The encoding of `_mm_cmpestri`: it is specified as the index of the first byte of a block inside the ranges.
- Head parsers read the input as a sequence, because they never write it; the decoder works in place on an array.
- The source's inline stages (the chains of the decoder, the cases of the C switch, the stages of the heads) are methods of their own, called in the source's order; the classification by token table is a predicate that both tables are proved equal to.
- `ChunkedDelivery.Feed` counts the pieces that were never fed as left over, so that its verdict can be compared with one call on the whole message.
- Conformance with RFC 7230 beyond the byte classes: the grammars state the language the code accepts, which is looser in places (bare line feeds, obsolete line folding, any trailer line).
- Performance, and the test, benchmark, fuzzing and loopback code.
