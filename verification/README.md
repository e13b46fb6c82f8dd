# Aero: verified models of protocol and storage cores

Aero is an x86 machine in the browser, with Rust devices, TypeScript workers and Node tooling. This project models the
parts of it whose correctness is hardest to see by reading, and proves what they promise. Loops and objects that the
sources update in place are methods and classes here, proved against specification functions; steps of concurrent
processes are transition systems. The laws are proved about those functions and systems, for all inputs, all runs or all
interleavings.

`dafny verify dfyconfig.toml` checks the whole project; `--resource-limit 2000000` can be added.

- **WebSocket codec and connection** (`WsFrame`, `WsConnection`, `WsChunking`, `WsRoundTrip`, `WsClose`, `WsConservation`,
  `WsWire`, `WsSocket`, with `Utf8`, `OneLine`, `TokenList`, `Subprotocol`): the frame codec, the incremental decoder, the
  close handshake, the refusals and the subprotocol header. Sections 5.2, 5.3, 5.5.1 and 7.4.1 of RFC 6455, section 3.2.6
  of RFC 7230, RFC 3629.
- **Framebuffer publication** (`Framebuffer`, `FramebufferAck`): double-buffered frames between workers, as
  interleavings of single loads and stores.
- **Build lock and build stamp** (`BuildLock`, `BuildStamp`): any number of processes, with crashes.
- **Graph search** (`GraphSearch`): depth-first search with a shared visited set on cyclic object graphs.
- **Physical memory bus and its monitor** (`MemoryMap`, `PhysicalBus`, `BusMonitor`).
- **Trace container** (`Words`, `TraceFormat`, `TraceFile`, `TraceLayout`, `TraceLog`, `TraceWriter`, `TraceScan`): writer and reader of GPU traces.
- **AHCI commands and DMA** (`GuestMemory`, `AhciCommand`, `AhciSetup`, `AhciDma`, `AhciScatter`, `AhciRun`).
- **Benchmark history and metric names** (`History`, `HistoryFile`, `Flatten`), **base64url** (`Base64Url`).
- `Wrappers`, `Seqs`, `Bytes` hold shared definitions. Bytes are integers from 0 to 255; bit operations are written as arithmetic.

## Where the code does not do what one would expect

Each of these has a lemma at a concrete run or input (named first) and one that gives the exact condition under which the
expected law holds.

- The encoder's comment announces a full 64-bit length (`tools/minimal_ws.js:105-108`); the upper half is always 0, so
  payloads of 2^32 bytes and more do not read back (`WsFrame.HugePayloadReadsAsEmpty`, `FrameRoundTripExact`).
- A frame with an unsupported opcode or invalid text is consumed before the connection fails, so a later chunk goes on
  behind it while the same bytes in one chunk do not (`WsChunking.SplitShowsAfterPoison`, `ChunkingExact`).
- An empty Close is answered with code 1005 on the wire, and a Close of more than 125 bytes is accepted and cut in the
  reply (`WsConnection.EmptyCloseIsAnsweredWith1005`, `LongCloseIsCut`, `CloseEcho`).
- Reserved bits and long length forms are accepted (`WsFrame.ReservedBitIsAccepted`, `LongLengthIsAccepted`,
  `AcceptedSpelling`).
- Text that opens with U+FEFF loses it on arrival (`WsRoundTrip.MarkIsLost`, `TextArrivesUnchanged`).
- An array-valued subprotocol header stops reading at 32 tokens where its comma-join is refused
  (`Subprotocol.ArrayStopsAtLimit`, `ArrayReadsLikeJoin`).
- The comment in `packages/transport-safety/src/text.js:5-7` says control characters are dropped outright; the code
  replaces a run of them by one space, like white space (`OneLine.ControlBecomesSpace`, `SanitizeIsWords`). The model
  follows the code.
- The framebuffer check compares an unsigned with a signed word and fails in the upper half of every 2^32 frames, first
  at frame 2^31 (`Framebuffer.CheckFailsAt2To31`, `QuietCheck`); a passed check does not by itself prevent a torn read
  (`TornRead`; `CheckedReadIsFrame`, `NextPixelIsFrames` and `TornOnceBegun` say until when).
- The frame sequence is stored before the dirty flag, so an acknowledgement in between is overwritten and a throttled
  writer waits for ever (`FramebufferAck.LostAcknowledgement`, `StuckExactly`).
- Stale-lock recovery removes whatever lock is there, not the one that was judged (`BuildLock.TwoWaiters`, `OneWaiter`,
  `ExclusionExact`).
- The no-build path can return with a binary of another commit, or with none, even when every build is careful: when the
  tree moves during the call, when another call has built and not yet written its stamp, or when the binary vanishes
  between looking for it and reading the stamp (`BuildStamp.MovedTreeIsHandedOld`, `OwedStampIsNotWaitedFor`,
  `VanishedBinaryIsHandedOut`, `EarlyReturnExact`).
- A build with local edits leaves the stamp of the last clean build in place (`BuildStamp.EditedBuildIsHandedOut`,
  `BuildExact`).
- A number directly under the key `__proto__` is lost when metrics are flattened (`Flatten.ProtoIsLost`,
  `LosslessFlattening`).
- A benchmark scenario called `__proto__` is stored in a history entry only if the first report of that entry had one.
  Otherwise its metrics are lost and its duplicates accepted, without an error, so the order of the reports that make an
  entry can show (`History.OrderShows`, `DuplicateShows`, `NewOrderExact`, `HistoryFile.MakingOrder`).

## Modelling decisions

- Randomness, clocks and the outside world are parameters: mask keys come from an arbitrary sequence, timestamps are
  compared by an arbitrary total order, a liveness probe sees the set of live processes.
- `WsSocket` logs written frames and emitted events instead of using a socket; writes succeed and handlers do not re-enter.
- In the transition systems every atomic load or store, file-system call, probe and process exit is one step.
- Memory-mapped devices answer reads by byte offset; RAM is dense. `usize` is 64 bits wide.
- Names and values in the benchmark history are numbers in the model. They are only compared for equality, except that
  one scenario name stands for `__proto__`, whose assignment to an object that does not own it stores nothing
  (`bench/history.js:699-703`). Reports reach the merge with such a scenario of their own (`bench/history.js:591-595`),
  never with such a metric (`bench/history.js:514`, `bench/history.js:577`) or environment field; a history file edited
  by hand to hold those is not modelled.

## Model

| member | source | states |
|---|---|---|
| `Utf8.DecodePointOfEncoded` | tools/minimal_ws.js:423-433 | every scalar value is decoded from the front of its own bytes, whatever follows (section 3 of RFC 3629) |
| `Utf8.EncodedOfDecodePoint` | tools/minimal_ws.js:423-433 | each accepted byte sequence is the one spelling of its code point: no overlong form, no surrogate is accepted |
| `Utf8.DecodeAllOfEncoded` | tools/minimal_ws.js:423-433 | decoding an encoded text followed by more bytes is that text followed by the decoding of the rest |
| `Utf8.TextRoundTrip` | tools/minimal_ws.js:423-433 | decoding an encoded text never fails, and returns the text if and only if it has no lone surrogate and does not open with U+FEFF, which the decoder strips |
| `Utf8.EncodeOfDecoded` | tools/minimal_ws.js:423-433 | bytes the fatal decoder accepts are the encoding of the text it returns |
| `Utf8.ShortExamples` | tools/minimal_ws.js:423-433 | one- and two-byte spellings from RFC 3629, with the ends of their ranges |
| `Utf8.ThreeByteExamples` | tools/minimal_ws.js:423-433 | the same for three bytes |
| `Utf8.FourByteExamples` | tools/minimal_ws.js:423-433 | the same for four bytes |
| `Utf8.LoneSurrogate` | tools/minimal_ws.js:423-433 | every lone surrogate is written as the three bytes of U+FFFD |
| `OneLine.SanitizeIsWords` | packages/transport-safety/src/text.js:27-46 | the flag-driven loop yields the words of the input in order with single spaces between, none at the ends |
| `OneLine.FitFits` | packages/transport-safety/src/text.js:48-56 | a truncated text never encodes to more bytes than the budget |
| `OneLine.FitIsLongest` | packages/transport-safety/src/text.js:48-56 | no longer prefix of the text would have fitted |
| `OneLine.FormatRefinesTwoPass` | packages/transport-safety/src/text.js:58-87 | the one-pass formatter gives the bytes of sanitising and then truncating, and never more than asked for |
| `OneLine.ControlBecomesSpace` | packages/transport-safety/src/text.js:33-37 | a control character between two letters becomes a space and is not dropped |
| `OneLine.BlankExactly` | packages/transport-safety/src/text.js:32-34 | the characters that count as blank, listed |
| `OneLine.FormatOneLine` | packages/transport-safety/src/text.js:58-87 | the byte-counting loop with its early exits computes that formatter; empty for a budget of zero or less |
| `WsFrame.MaskedTwice` | tools/minimal_ws.js:411-419 | masking twice with one key is the identity |
| `Bytes.XorBit` | tools/minimal_ws.js:118-120 | masking works bit by bit: a bit is set if and only if it is set in one of the two bytes |
| `WsFrame.MaskBuffer` | tools/minimal_ws.js:118-121 | the mask loop fills its buffer with the masked payload |
| `WsFrame.EncodeFrame` | tools/minimal_ws.js:88-122 | the encoder with its three length forms writes the frame of the format |
| `WsFrame.FrameSize` | tools/minimal_ws.js:355-421 | a consumed frame takes at least 2 bytes, 6 when masked, and none that are not there |
| `WsFrame.ParseStable` | tools/minimal_ws.js:355-421 | once a buffer front is judged (frame or failure), more bytes never change the judgement |
| `WsFrame.ParseLocal` | tools/minimal_ws.js:355-421 | a frame is judged from its own bytes alone |
| `WsFrame.FrameRoundTrip` | tools/minimal_ws.js:88-122 | every payload under 2^32 bytes, with any opcode and mask key, parses back at the opposite role to itself, consuming exactly its own bytes |
| `WsFrame.FrameRoundTripExact` | tools/minimal_ws.js:103-109 | without a size limit the round trip holds if and only if the payload is shorter than 2^32 bytes |
| `WsFrame.AcceptedSpelling` | tools/minimal_ws.js:355-421 | an accepted frame equals what the encoder would write if and only if its reserved bits are clear, its length is below 2^32 and its length form is the shortest |
| `WsFrame.ReservedBitIsAccepted` | tools/minimal_ws.js:359-365 | a frame starting with byte 0xC1 is read like one starting with 0x81 |
| `WsFrame.LongLengthIsAccepted` | tools/minimal_ws.js:379-382 | an empty payload announced in sixteen bits is read |
| `WsFrame.HugePayloadReadsAsEmpty` | tools/minimal_ws.js:103-109 | a payload of exactly 2^32 bytes is written with length 0 and read as an empty frame |
| `WsConnection.ReasonFits` | tools/minimal_ws.js:502-510 | a close reason, text or bytes, is cut to at most 123 bytes |
| `WsConnection.CloseRoundTrip` | tools/minimal_ws.js:502-516 | a Close payload has 2 to 125 bytes and decodes to its code and reason |
| `WsConnection.DecodedCode` | tools/minimal_ws.js:512-516 | every decoded close code fits 16 bits, so echoing it cannot throw |
| `WsConnection.CloseEcho` | tools/minimal_ws.js:450-462 | the reply repeats a received Close payload if and only if that has 2 to 125 bytes |
| `WsConnection.CloseArrives` | tools/minimal_ws.js:450-462 | a Close arriving whole before one was sent is answered with one frame that encodes what was decoded, and the socket is ended |
| `WsConnection.EmptyCloseIsAnsweredWith1005` | tools/minimal_ws.js:450-462 | an empty Close frame is answered by a Close frame holding the two bytes of 1005 |
| `WsConnection.LongCloseIsCut` | tools/minimal_ws.js:502-516 | a Close frame with 126 bytes of payload is accepted and answered by one with a byte less |
| `WsConnection.StepShrinks` | tools/minimal_ws.js:355-468 | every pass that goes round again removes at least 2 bytes, so the drain loop ends |
| `WsWire.EncodeLayout` | tools/minimal_ws.js:88-122 | a written frame byte by byte: FIN and opcode, mask bit and length in its form, key, payload under the key |
| `WsWire.ParseAnnounced` | tools/minimal_ws.js:355-421 | what a header with FIN and the right mask bit leads to, stated on its bytes: refusal with 1009, waiting, or a frame of exactly the announced size with its unmasked payload |
| `WsWire.FragmentRefused` | tools/minimal_ws.js:367-370 | a frame without FIN is answered by one Close frame with 1002 and that reason, and nothing is consumed |
| `WsWire.WrongMaskRefused` | tools/minimal_ws.js:372-376 | the same for a masked frame at a client and an unmasked one at a server |
| `WsWire.LengthJudged` | tools/minimal_ws.js:378-406 | an announced length is answered by a Close frame with 1009 if and only if it exceeds 2^53-1 or a positive limit; otherwise an incomplete frame is waited for and a whole one consumed |
| `WsWire.BadTextRefused` | tools/minimal_ws.js:423-431 | a text frame that is not UTF-8 is consumed and answered by a Close frame with 1007, whatever follows it |
| `WsWire.BadOpcodeRefused` | tools/minimal_ws.js:465-466 | an opcode outside 1, 2, 8, 9 and 10 is consumed and answered by a Close frame with 1002 |
| `WsWire.CloseHandshake` | tools/minimal_ws.js:449-463 | one side closes: both Close frames carry its code and reason, both sockets end, and both sides report that code and reason |
| `WsWire.MessagesWithinLimit` | tools/minimal_ws.js:394-397 | over every run with a limit, no message delivered has more bytes than it |
| `WsChunking.StepAppend` | tools/minimal_ws.js:355-468 | a pass that reached a judgement does the same with more bytes behind the buffer |
| `WsChunking.DrainAppend` | tools/minimal_ws.js:341-468 | draining, then draining again with more bytes, is draining once, unless a frame poisoned the pass |
| `WsChunking.StepConserves` | tools/minimal_ws.js:355-468 | one pass moves bytes from the buffer to at most one consumed frame and loses none |
| `WsChunking.DrainConserves` | tools/minimal_ws.js:355-468 | a whole drain loses no byte |
| `WsChunking.FeedConserves` | tools/minimal_ws.js:315-468 | over any chunks, from any connection, consumed frames followed by the buffer grow by exactly the bytes fed |
| `WsConservation.RunConserves` | tools/minimal_ws.js:315-476 | in every reachable state, whatever was sent, closed or ended in between, the consumed frames, each of them whole, followed by the buffer are exactly the bytes the socket delivered, those that came with it included |
| `WsChunking.PoisonedStops` | tools/minimal_ws.js:421-468 | after an unsupported opcode or invalid text the connection is closing and the offending frame is already consumed |
| `WsChunking.AfterPoison` | tools/minimal_ws.js:341-468 | after such a frame later chunks are only buffered if and only if they bring no whole frame to the front |
| `WsChunking.ChunkingExact` | tools/minimal_ws.js:341-468 | for every stream, role and limit, cutting it into chunks gives the same state and log as one chunk, if and only if no whole frame follows a poisoned one in a later chunk |
| `WsChunking.SplitShowsAfterPoison` | tools/minimal_ws.js:341-468 | two concrete frames, the first with opcode 3, behave differently in one chunk and in two |
| `WsRoundTrip.DrainWire` | tools/minimal_ws.js:355-468 | a buffer holding any list of encoded deliverable frames drains to one answer per frame, in order, and is empty afterwards |
| `WsRoundTrip.StreamRoundTrip` | tools/minimal_ws.js:88-122 | the same for any mask keys and any cutting of the bytes into chunks: messages in order, one equal pong per ping, no failure |
| `WsRoundTrip.SendAllWrites` | tools/minimal_ws.js:165-177 | a run of sends writes exactly the frames of its messages, in order |
| `WsRoundTrip.SentIsDeliverable` | tools/minimal_ws.js:165-177 | whatever send writes is deliverable at the opposite role and is answered by its message |
| `WsRoundTrip.EndToEnd` | tools/minimal_ws.js:88-468 | two endpoints in opposite roles: what one sends is what the other reports, in order, however the bytes are cut, with nothing left over and no Close |
| `WsRoundTrip.TextArrivesUnchanged` | tools/minimal_ws.js:423-433 | a sent text arrives as itself if and only if it is well formed and does not open with U+FEFF |
| `WsRoundTrip.MarkIsLost` | tools/minimal_ws.js:423-433 | a text that is only U+FEFF arrives empty |
| `WsClose.CloseKeeps` | tools/minimal_ws.js:179-187 | closing keeps the connection consistent: the sent flag, the Close frames in the log and the record of codes agree |
| `WsClose.StepKeeps` | tools/minimal_ws.js:355-468 | so does every pass over the buffer |
| `WsClose.DrainKeeps` | tools/minimal_ws.js:355-468 | so does a whole drain |
| `WsClose.SocketClosedKeeps` | tools/minimal_ws.js:470-476 | so does the end of the socket, which emits the verdict when none was emitted before |
| `WsClose.ApplyKeeps` | tools/minimal_ws.js:124-477 | every operation of the connection keeps it |
| `WsClose.RunKeeps` | tools/minimal_ws.js:124-477 | every connection reachable by any run is consistent |
| `WsClose.AtMostOneClose` | tools/minimal_ws.js:179-187 | over all runs at most one Close frame is written, with 2 to 125 payload bytes |
| `WsClose.CloseEventOnce` | tools/minimal_ws.js:470-476 | over all runs the close event fires at most once, with the last code received, else 1000 if a close was initiated, else 1006 |
| `WsSocket.WebSocket.constructor` | tools/minimal_ws.js:124-158 | a new connection is in the initial state of the machine |
| `WsSocket.WebSocket.WriteFrame` | tools/minimal_ws.js:165-187 | writing appends one frame, masked with the next key exactly for a client |
| `WsSocket.WebSocket.EncodeClosePayload` | tools/minimal_ws.js:502-510 | builds the Close payload of code and cut reason |
| `WsSocket.WebSocket.Close` | tools/minimal_ws.js:179-187 | does one close step and reports exactly when writing the code would throw |
| `WsSocket.WebSocket.Fail` | tools/minimal_ws.js:347-353 | does one close step and never throws |
| `WsSocket.WebSocket.Send` | tools/minimal_ws.js:165-177 | does one send step, and throws exactly when not connected |
| `WsSocket.WebSocket.ParseBuffer` | tools/minimal_ws.js:355-419 | the checks in source order judge the buffer front as the frame format does |
| `WsSocket.WebSocket.ReceiveClose` | tools/minimal_ws.js:450-462 | records code and reason, replies at most once |
| `WsSocket.WebSocket.Handle` | tools/minimal_ws.js:423-466 | does with a consumed frame what the machine does, and says whether the loop goes on |
| `WsSocket.WebSocket.DrainFrames` | tools/minimal_ws.js:355-468 | the loop over the mutable buffer reaches the state of the recursive drain |
| `WsSocket.WebSocket.OnData` | tools/minimal_ws.js:341-345 | one chunk: append and drain; an empty chunk does nothing |
| `WsSocket.WebSocket.InitFromSocket` | tools/minimal_ws.js:315-339 | attaches the socket and drains the bytes that came with the upgrade |
| `WsSocket.WebSocket.OnSocketClose` | tools/minimal_ws.js:470-476 | emits the verdict once |
| `TokenList.IndexOfComma` | tools/minimal_ws.js:43-44 | finds the next comma, or the end |
| `TokenList.TrimRange` | tools/minimal_ws.js:46-48 | the two inner loops leave exactly the trimmed piece |
| `TokenList.ResumePoint` | tools/minimal_ws.js:57-57 | resuming one past the trimmed end, which may lie before the comma, skips no token and repeats none |
| `TokenList.NextPiece` | tools/minimal_ws.js:41-58 | one round of the scan accounts for every token up to its resume point |
| `TokenList.TokensConcat` | tools/minimal_ws.js:35-61 | the tokens of a comma-join are those of the parts in order |
| `TokenList.TokenCharacters` | packages/transport-safety/src/http_tokens.js:9-32 | the characters of a token, as section 3.2.6 of RFC 7230 lists them |
| `TokenList.SplitExact` | tools/minimal_ws.js:42-44 | the pieces contain no comma and joined by commas give the text back |
| `TokenList.TrimExact` | tools/minimal_ws.js:46-48 | what is trimmed off either end is characters up to 0x20, and neither end of the rest is one |
| `TokenList.CommaSeparatedTokens` | tools/minimal_ws.js:35-61 | the scanner equals splitting on commas, trimming and dropping empties, and is null exactly when the text is too long, has too many tokens or an invalid one |
| `Subprotocol.ParseProtocolsHeader` | tools/minimal_ws.js:63-86 | the loop over a string, an array or no header computes the accumulated reading with its limits |
| `Subprotocol.JoinFacts` | tools/minimal_ws.js:63-86 | a comma-join has the tokens of its parts and is no shorter than they are |
| `Subprotocol.ReadPartsJudges` | tools/minimal_ws.js:69-85 | the array loop judges all tokens together if and only if it does not stop early at the token limit |
| `Subprotocol.ArrayReadsLikeJoin` | tools/minimal_ws.js:63-86 | an array header reads like its comma-join of at most 4096 characters if and only if the loop does not stop early |
| `Subprotocol.ArrayStopsAtLimit` | tools/minimal_ws.js:63-86 | thirty-three one-letter parts are read as thirty-two tokens while their comma-join is refused |
| `Subprotocol.FewTokensNeverStopEarly` | tools/minimal_ws.js:82-82 | with at most 32 tokens in all it never stops early |
| `Subprotocol.ArrayRefused` | tools/minimal_ws.js:72-75 | an array is refused for a part that is no string and for one that brings it over 4096 characters |
| `Subprotocol.JoinOfferSpelled` | tools/minimal_ws.js:246-246 | offers are joined by a comma and a space |
| `Subprotocol.OfferProtocols` | tools/minimal_ws.js:224-247 | the client accepts exactly lists of at most 32 valid tokens whose header fits, and each error has its cause |
| `Subprotocol.OfferTokens` | tools/minimal_ws.js:246-246 | a list of valid tokens joined with comma and space has that list as its tokens |
| `Subprotocol.OfferRoundTrip` | tools/minimal_ws.js:224-247 | every list the client accepts is parsed by the server to the same list |
| `Framebuffer.WriterKeeps` | apps/web/shared-framebuffer-cursor-overlay.ts:105-125 | every store of the writer keeps the publication invariant, with a multi-step pixel fill and wrapping counters |
| `Framebuffer.SlotStillHolds` | apps/web/shared-framebuffer-cursor-overlay.ts:105-125 | until frame n+2 is begun, the slot of frame n holds all of frame n |
| `Framebuffer.WrapExact` | apps/web/cpu-worker-wasm-framebuffer-smoke.ts:142-148 | the signed and the unsigned word are the ones that agree with the number modulo 2^32 |
| `Framebuffer.StepKeeps` | apps/web/cpu-worker-wasm-framebuffer-smoke.ts:140-166 | every step of writer or reader, in any order, keeps the joint invariant |
| `Framebuffer.PlayKeeps` | apps/web/shared-framebuffer-cursor-overlay.ts:80-125 | every interleaving keeps it |
| `Framebuffer.WriterProgress` | apps/web/shared-framebuffer-cursor-overlay.ts:105-125 | a sanity check of the model: in every reachable state the writer can take a step |
| `Framebuffer.CheckedReadIsFrame` | apps/web/cpu-worker-wasm-framebuffer-smoke.ts:140-166 | over all interleavings and any number of frames: a passed check means the active slot is the parity of one published frame n, and every pixel read is that of frame n as long as frame n+2 is not begun |
| `Framebuffer.NextPixelIsFrames` | apps/web/cpu-worker-wasm-framebuffer-smoke.ts:140-166 | the next pixel read is still frame n's until frame n+2 is begun, and even then until that very pixel is stored |
| `Framebuffer.TornOnceBegun` | apps/web/cpu-worker-wasm-framebuffer-smoke.ts:140-166 | after any run that has begun frame n+2 under a reader of frame n, one store and one read hand it any value: the bound cannot be moved |
| `Framebuffer.CheckedReadIsTheLoadedFrame` | apps/web/cpu-worker-wasm-framebuffer-smoke.ts:142-148 | with fewer than 2^32 publications in between, n is the very sequence that was loaded |
| `Framebuffer.QuietCheck` | apps/web/cpu-worker-wasm-framebuffer-smoke.ts:142-148 | at rest the check passes if and only if the frame number modulo 2^32 is below 2^31, because an unsigned word is compared with a signed one |
| `Framebuffer.CheckFailsAt2To31` | apps/web/cpu-worker-wasm-framebuffer-smoke.ts:142-148 | a run of 2^31 frames after which the writer rests and three loads in a row fail the check |
| `Framebuffer.TornRead` | apps/web/cpu-worker-wasm-framebuffer-smoke.ts:140-166 | a run in which the check passes and one read mixes pixels of two frames, so the condition on frame n+2 is needed |
| `FramebufferAck.PlayKeeps` | crates/aero-shared/src/shared_framebuffer.rs:494-551 | every interleaving of the throttled writer and the acknowledging consumer keeps their invariant |
| `FramebufferAck.AcknowledgedReadsAreWhole` | crates/aero-gpu/src/frame_source.rs:162-212 | with acknowledgements no interleaving tears a frame: the consumer views the newest frame, whole, until it acknowledges |
| `FramebufferAck.NoFrameSkipped` | crates/aero-gpu/src/frame_source.rs:170-176 | a poll that finds a frame finds the next one |
| `FramebufferAck.StuckForever` | crates/aero-shared/src/shared_framebuffer.rs:494-503 | from a lost acknowledgement on, no run ever moves again |
| `FramebufferAck.StuckExactly` | crates/aero-shared/src/shared_framebuffer.rs:547-548 | a step loses it if and only if it stores the dirty flag after that frame was already acknowledged |
| `FramebufferAck.LostAcknowledgement` | crates/aero-shared/src/shared_framebuffer.rs:547-548 | a run in which this happens: the sequence is stored before the flag, and the consumer fits in between |
| `BuildLock.InvExclusive` | tools/rust_l2_proxy.js:124-191 | the invariant implies that at most one live process is between mkdir and release |
| `BuildLock.StepKeeps` | tools/rust_l2_proxy.js:124-191 | every file-system call, probe, timeout and exit of any process keeps it, given the removal condition |
| `BuildLock.PlayKeeps` | tools/rust_l2_proxy.js:124-191 | and so does every run |
| `BuildLock.MutualExclusion` | tools/rust_l2_proxy.js:124-191 | for any set of processes and any crashes: exclusion holds in every run whose stale-lock removals hit the incarnation they judged, with age used only against makers that are gone |
| `BuildLock.RemovalExact` | tools/rust_l2_proxy.js:162-181 | a removal lets its process in beside another if and only if the lock it removes is held by a live process |
| `BuildLock.SparingKeeps` | tools/rust_l2_proxy.js:124-191 | every step keeps the lock with the process inside, as long as no removal takes the lock of a live process that is inside |
| `BuildLock.ExclusionExact` | tools/rust_l2_proxy.js:124-191 | over whole runs of any processes with any exits: exclusion holds throughout, whatever removers do next, if and only if no removal takes the lock of a live process that is inside |
| `BuildLock.TwoRemovals` | tools/rust_l2_proxy.js:162-165 | in any state two pending removals end with both processes inside |
| `BuildLock.TwoWaiters` | tools/rust_l2_proxy.js:150-166 | any two waiters that judge one dead owner end up inside together |
| `BuildLock.OneWaiter` | tools/rust_l2_proxy.js:150-166 | one waiter is enough: the owner it read about exits, another takes the lock, the waiter removes that one |
| `BuildLock.LockExact` | tools/rust_l2_proxy.js:131-140 | which steps make, own and remove the directory, and that giving up, rolling back and removing leave none |
| `BuildLock.JudgementExact` | tools/rust_l2_proxy.js:150-179 | a removal is decided on if and only if the recorded owner was found dead, or none could be read and the directory is old |
| `BuildLock.WaiterGetsIn` | tools/rust_l2_proxy.js:181-190 | a waiter leaves a live owner alone, sleeps, and gets in once the lock is given up |
| `BuildStamp.StepKeeps` | tools/rust_l2_proxy.js:217-305 | every single file-system or git call of any number of calls, the user moving the tree and the binary vanishing, keeps binary and stamp in agreement, given careful builds |
| `BuildStamp.PlayKeeps` | tools/rust_l2_proxy.js:217-305 | and so does every run |
| `BuildStamp.EarlyReturnExact` | tools/rust_l2_proxy.js:225-246 | every early return of every careful run: before the lock it hands out the expected commit if and only if the binary has not vanished since it was seen and the tree has not moved to a commit whose stamp is still owed; the checked-out commit if and only if it has not vanished and nothing moved or that commit was just built; under the lock only vanishing is left |
| `BuildStamp.EarlyReturnIsSound` | tools/rust_l2_proxy.js:225-246 | a call during which the tree does not move and the binary does not vanish returns without building only with a binary built from the current HEAD, whatever other calls do |
| `BuildStamp.BuildExact` | tools/rust_l2_proxy.js:253-295 | which builds keep the stamp truthful, exactly |
| `BuildStamp.ReturnsEarlyExactly` | tools/rust_l2_proxy.js:225-246 | a call returns without building if and only if it has seen a binary and reads a stamp naming the commit it expects |
| `BuildStamp.EditedNeverEarly` | tools/rust_l2_proxy.js:225-226 | a call that finds local edits, or cannot tell, never returns without building, whatever happens after |
| `BuildStamp.CleanExpects` | tools/rust_l2_proxy.js:223-223 | a call that finds the tree clean expects the commit it read before |
| `BuildStamp.OnlyBuildsChange` | tools/rust_l2_proxy.js:242-246 | only a successful build replaces the binary, by the tree as it is then, and only a successful stamp write the stamp |
| `BuildStamp.NoLockLeftBehind` | tools/rust_l2_proxy.js:186-190 | in every run a call that has ended holds no lock |
| `BuildStamp.IncoherentIsBelieved` | tools/rust_l2_proxy.js:225-240 | a stamp that is not truthful is believed by the next call on that commit |
| `BuildStamp.MovedTreeIsHandedOld` | tools/rust_l2_proxy.js:223-240 | a careful run in which the tree moves during the call and the old commit is handed out |
| `BuildStamp.OwedStampIsNotWaitedFor` | tools/rust_l2_proxy.js:238-240 | a careful run in which the old stamp vouches for a binary another call has just built |
| `BuildStamp.VanishedBinaryIsHandedOut` | tools/rust_l2_proxy.js:227-234 | a careful run in which the binary vanishes between the two looks and the call returns with none |
| `BuildStamp.EditedBuildIsHandedOut` | tools/rust_l2_proxy.js:289-295 | the run clean build, build with edits, clean tree again: the edited binary is handed out |
| `GraphSearch.VisitIsReachable` | apps/web/gpu-worker-d3d9-shader-cache.ts:134-161 | everything the walk tries is reachable through array items and object values |
| `GraphSearch.VisitExplores` | apps/web/gpu-worker-d3d9-shader-cache.ts:134-161 | with any set of objects already seen, the walk leaves every newly seen object with all its children tried |
| `GraphSearch.ReachableIsVisited` | apps/web/gpu-worker-d3d9-shader-cache.ts:134-161 | the end of every path from the root is tried, cycles and sharing notwithstanding |
| `GraphSearch.VisitExactlyReachable` | apps/web/gpu-worker-d3d9-shader-cache.ts:134-161 | the walk tries exactly the reachable values |
| `GraphSearch.FirstParsedMeaning` | apps/web/gpu-worker-d3d9-shader-cache.ts:134-161 | the first success exists exactly when some tried value parses, and is the parse of one |
| `GraphSearch.Searcher.Walk` | apps/web/gpu-worker-d3d9-shader-cache.ts:137-158 | the recursive walk over the shared seen set stops at the first value that parses; it terminates, by unvisited objects |
| `GraphSearch.Find` | apps/web/gpu-worker-d3d9-shader-cache.ts:134-161 | on every finite graph: non-null if and only if a reachable value parses, and then its parse |
| `GraphSearch.FindShaderCacheCounters` | apps/web/gpu-worker-d3d9-shader-cache.ts:66-161 | the same with the counter parser, whose defaults and flags are modelled |
| `GraphSearch.FindTranslatorCacheVersion` | apps/web/gpu-worker-d3d9-shader-cache.ts:117-190 | the same with the version parser |
| `GraphSearch.CountersSpelled` | apps/web/gpu-worker-d3d9-shader-cache.ts:70-84 | calls, hits, misses and the disabled flag are read from their own fields |
| `GraphSearch.SnakeSpelled` | apps/web/gpu-worker-d3d9-shader-cache.ts:86-98 | the same for the short snake-case names |
| `GraphSearch.CamelSpelled` | apps/web/gpu-worker-d3d9-shader-cache.ts:100-112 | the same for the camel-case names |
| `GraphSearch.VersionSpelled` | apps/web/gpu-worker-d3d9-shader-cache.ts:117-132 | the four names of the version, in their order of preference |
| `GraphSearch.WalkOrder` | apps/web/gpu-worker-d3d9-shader-cache.ts:137-159 | an object is tried before what is in it, and its first child with all below it before the second |
| `MemoryMap.FindExact` | crates/memory/src/bus.rs:325-341 | the binary search returns a range if and only if that range holds the address |
| `MemoryMap.QuietUntil` | crates/memory/src/bus.rs:343-352 | from an unmapped address nothing is met before the next start |
| `MemoryMap.SameSpan` | crates/memory/src/bus.rs:325-341 | inside a range the rest of it resolves to the same range |
| `MemoryMap.ClearMeansNothingFound` | crates/memory/src/bus.rs:360-379 | the overlap test for the RAM fast path excludes every range |
| `MemoryMap.FitsExact` | crates/memory/src/bus.rs:261-323 | looking at the two neighbours decides overlap against every range |
| `MemoryMap.InsertKeepsOrder` | crates/memory/src/bus.rs:261-323 | an accepted range is inserted in order |
| `PhysicalBus.RouteMeaning` | crates/memory/src/bus.rs:381-500 | routing is: the MMIO region holding the address, else the ROM holding it, else RAM below its size, else nothing |
| `PhysicalBus.ByteAtMeaning` | crates/memory/src/bus.rs:381-500 | what stands at an address: the answer of the device at the offset, else the byte of the ROM, else the RAM byte, else 0xFF |
| `PhysicalBus.RomReads` | crates/memory/src/bus.rs:434-446 | a mapped ROM under no device reads as its data, whatever RAM holds, so after any write |
| `PhysicalBus.ReadAfterWrite` | crates/memory/src/bus.rs:502-590 | after a write RAM gives the written bytes back, and every other byte reads as before |
| `PhysicalBus.DeviceBytesMeaning` | crates/memory/src/bus.rs:502-590 | devices are handed one entry per byte in their regions, in address order, with device, offset and byte |
| `PhysicalBus.ExpandMeaning` | crates/memory/src/bus.rs:594-632 | the bytes of a log of accesses, each at the offset of its access plus its position |
| `PhysicalBus.AccessesExpand` | crates/memory/src/bus.rs:594-632 | the accesses of a chunk carry its bytes once and in order |
| `PhysicalBus.AccessesWidest` | crates/memory/src/bus.rs:604-607 | no access of a chunk could be wider: no larger size is aligned there and fits |
| `PhysicalBus.NothingPastTheEnd` | crates/memory/src/bus.rs:381-500 | nothing is mapped past 2^64 |
| `PhysicalBus.ChunkUniform` | crates/memory/src/bus.rs:381-500 | the chunk the copy loop takes is never empty, never too long, and one party serves every byte of it |
| `PhysicalBus.FastServes` | crates/memory/src/bus.rs:244-251 | the RAM fast path is taken only where RAM serves every byte |
| `PhysicalBus.StoredThen` | crates/memory/src/bus.rs:502-592 | two adjacent writes are one write of both |
| `PhysicalBus.DeviceBytesConcat` | crates/memory/src/bus.rs:502-592 | and hand the devices the same bytes in the same order |
| `PhysicalBus.Bus.constructor` | crates/memory/src/bus.rs:224-236 | a new bus has RAM only |
| `PhysicalBus.Bus.MapRom` | crates/memory/src/bus.rs:261-286 | accepted if and only if the range stays below 2^64 and every ROM that starts below it ends by its start and every other starts at its end or later, so a nonempty range that starts where an empty one stands is refused too; adds exactly that ROM |
| `PhysicalBus.Bus.MapMmio` | crates/memory/src/bus.rs:288-323 | the same for a device range among device ranges |
| `PhysicalBus.Bus.ReadMmioChunk` | crates/memory/src/bus.rs:594-613 | fills its part of the destination with device bytes by the widest aligned accesses, asking for each byte once and in order |
| `PhysicalBus.Bus.WriteMmioChunk` | crates/memory/src/bus.rs:615-632 | hands the device its bytes once and in order, by the widest aligned accesses |
| `PhysicalBus.Bus.ReadChunk` | crates/memory/src/bus.rs:381-500 | one chunk of a read equals the byte-by-byte reference |
| `PhysicalBus.Bus.ReadPhysical` | crates/memory/src/bus.rs:381-500 | every byte read is the answer of the device, the byte of the ROM, the RAM byte or 0xFF, as the regions say; devices are asked for exactly their bytes, once and in order |
| `PhysicalBus.Bus.WriteChunk` | crates/memory/src/bus.rs:502-592 | one chunk of a write changes what the reference assigns to RAM and devices |
| `PhysicalBus.Bus.WritePhysical` | crates/memory/src/bus.rs:502-590 | RAM takes the bytes written where neither a device nor a ROM is, and is otherwise as it was; devices get exactly their bytes in order, by naturally aligned accesses |
| `BusMonitor.MappedIffServed` | fuzz/fuzz_targets/fuzz_bios_interrupts.rs:122-144 | the monitor calls an address mapped if and only if the bus serves it |
| `BusMonitor.FastPathSound` | fuzz/fuzz_targets/fuzz_bios_interrupts.rs:93-120 | the whole-range check never passes a byte the byte check would flag, for any region lists |
| `BusMonitor.FlagBytesExact` | fuzz/fuzz_targets/fuzz_bios_interrupts.rs:202-236 | the byte loop flags if and only if some translated byte is unmapped |
| `BusMonitor.StepExact` | fuzz/fuzz_targets/fuzz_bios_interrupts.rs:202-236 | one access, by fast path or byte path, flags exactly when it strays |
| `BusMonitor.BehindExact` | fuzz/fuzz_targets/fuzz_bios_interrupts.rs:85-91 | the address behind a byte: wrapped at 2^64, and with the gate closed the one with bit 20 clear and every other bit the same |
| `BusMonitor.GateExact` | fuzz/fuzz_targets/fuzz_bios_interrupts.rs:178-180 | the gate is as it was last set, closed at first |
| `BusMonitor.StoredEachMeaning` | fuzz/fuzz_targets/fuzz_bios_interrupts.rs:220-235 | where written bytes land: plain RAM takes the last byte whose address it is, and is otherwise as it was |
| `BusMonitor.DeviceEachMeaning` | fuzz/fuzz_targets/fuzz_bios_interrupts.rs:220-235 | devices are handed one entry per byte that reaches them through the gate, in order |
| `BusMonitor.MonitorExact` | fuzz/fuzz_targets/fuzz_bios_interrupts.rs:85-144 | over any run of reads, writes and gate changes the flag is set if and only if some access touched an unmapped byte under the gate as it was then |
| `BusMonitor.EachIsWhole` | fuzz/fuzz_targets/fuzz_bios_interrupts.rs:202-236 | with the gate open and no wrap, writing byte by byte equals writing at once |
| `BusMonitor.CheckedBus.constructor` | fuzz/fuzz_targets/fuzz_bios_interrupts.rs:74-83 | the monitor starts with the gate closed and no flag |
| `BusMonitor.CheckedBus.CheckAddrMapped` | fuzz/fuzz_targets/fuzz_bios_interrupts.rs:122-144 | flags exactly unmapped addresses and never clears the flag |
| `BusMonitor.CheckedBus.ReadPhysical` | fuzz/fuzz_targets/fuzz_bios_interrupts.rs:203-218 | each byte read is what stands at the address behind it, bit 20 clear while the gate is closed, and the flag follows the run |
| `BusMonitor.CheckedBus.WritePhysical` | fuzz/fuzz_targets/fuzz_bios_interrupts.rs:220-235 | RAM and devices change as if each byte were written to the address behind it, and the flag follows the run |
| `BusMonitor.CheckedBus.SetA20` | fuzz/fuzz_targets/fuzz_bios_interrupts.rs:85-91 | changes the gate and nothing else |
| `Flatten.DecimalReadsBack` | bench/util/metrics.js:21-23 | array indices are rendered so that they can be read back |
| `Flatten.SplitAtLast` | bench/util/metrics.js:28-32 | splitting a name at its last separator is unambiguous |
| `Flatten.RenderInjective` | bench/util/metrics.js:11-36 | two different paths with plain keys never get the same name |
| `Flatten.RenderSpelled` | bench/util/metrics.js:20-32 | a name is its pieces from the front: the first key bare, a dot before every other, brackets around an index |
| `Flatten.NoLeadingZero` | bench/util/metrics.js:22-22 | indices have no leading zeros |
| `Flatten.FlattenNumericMetrics` | bench/util/metrics.js:11-36 | the recursion over one shared output map performs exactly the assignments of the walk, in order |
| `Flatten.NamedIsLeaf` | bench/util/metrics.js:11-36 | every assignment names a finite numeric leaf by its rendered path |
| `Flatten.LeafIsNamed` | bench/util/metrics.js:11-36 | every finite numeric leaf is assigned under its rendered path |
| `Flatten.InsertAllMeaning` | bench/util/metrics.js:15-18 | assignments that agree end up in the map, except under the name of the prototype setter |
| `Flatten.NamedConsistent` | bench/util/metrics.js:11-36 | no two assignments of one walk disagree |
| `Flatten.LosslessFlattening` | bench/util/metrics.js:11-36 | for every tree with plain keys each numeric leaf is found under its path with its value; the one that is lost is a number directly under `__proto__` |
| `Flatten.ProtoIsLost` | bench/util/metrics.js:15-18 | the object whose one number is under `__proto__` flattens to nothing |
| `Flatten.NothingInvented` | bench/util/metrics.js:11-36 | every name in the result is the path of a leaf with that value |
| `History.MergeEnvironment` | bench/history.js:680-694 | succeeds if and only if common keys agree, then is the union, in whatever order keys come; an error names a real conflict |
| `History.MergeMetrics` | bench/history.js:705-718 | succeeds if and only if the metric names are disjoint, then is the union |
| `History.MergeScenarios` | bench/history.js:696-722 | succeeds if and only if no scenario has a metric twice, then is the union scenario by scenario, except that a scenario `__proto__` is stored only where the entry already owns one; an error names a real duplicate |
| `History.BlankIsNeutral` | bench/history.js:749-757 | taking a report as it is is appending it to a blank entry that owns the name `__proto__` just when the report does |
| `History.OwnershipStays` | bench/history.js:696-722 | no append makes an entry gain or lose a scenario `__proto__` |
| `History.CompatibleWithJoin` | bench/history.js:680-722 | a report fits a union if and only if it fits both parts |
| `History.JoinSwap` | bench/history.js:680-722 | two compatible reports can be joined in either order |
| `History.MergeSwap` | bench/history.js:680-722 | two further reports can be joined in either order, failures included |
| `History.AbsorbSwap` | bench/history.js:731-748 | the same for two appends to an entry, which store what the entry can own |
| `History.OrderIndependent` | bench/history.js:731-748 | any two orders of the same appends to an entry that is there give the same entry, or both fail |
| `History.MergeAllExact` | bench/history.js:680-722 | joining a series succeeds if and only if all reports fit the first and one another |
| `History.AbsorbIsMerge` | bench/history.js:724-764 | a series of appends is the union of what the entry can store of the reports |
| `History.SuccessExact` | bench/history.js:731-748 | a series of appends to an entry succeeds if and only if the reports fit it, and fit one another in what it can store of them |
| `History.NothingLost` | bench/history.js:724-764 | after a series the entry holds a metric or environment value if and only if it did before or some report did, save the metrics of a scenario `__proto__` the entry did not own from the start |
| `History.NewEntryExact` | bench/history.js:749-757 | a series that makes its entry: the first report alone decides whether any `__proto__` scenario is stored, and the series succeeds if and only if what is stored is compatible two by two |
| `History.SafeOrders` | bench/history.js:724-764 | when all reports have a `__proto__` scenario, or none has, or two conflict elsewhere, any two orders make the same entry or both fail |
| `History.NewOrderExact` | bench/history.js:724-764 | over all orders of all series that make a new entry: the order never shows if and only if all reports have a `__proto__` scenario, or none has, or two conflict elsewhere |
| `History.OrderShows` | bench/history.js:699-703 | a report with a `__proto__` scenario and one without: in one order a metric is stored, in the other it is lost without an error |
| `History.DuplicateShows` | bench/history.js:699-716 | a duplicate `__proto__` report is refused when it comes first and accepted when it does not |
| `HistoryFile.SortKeeps` | bench/history.js:759-760 | sorting puts entries in timestamp order and keeps every one |
| `HistoryFile.SortStable` | bench/history.js:759-759 | entries of equal timestamps keep their order |
| `HistoryFile.EntryIdSpelled` | bench/history.js:728-728 | an id is timestamp, dash and commit |
| `HistoryFile.EntryIdsDiffer` | bench/history.js:728-728 | commits without a dash never share an id, at one timestamp or two |
| `HistoryFile.EntryIdsCollide` | bench/history.js:732-737 | with dashes they can |
| `HistoryFile.KeyedByMultiset` | bench/history.js:759-760 | ids stay distinct under reordering |
| `HistoryFile.GetExact` | bench/history.js:731-731 | looking up an id finds an entry if and only if it is in the history |
| `HistoryFile.AppendKeeps` | bench/history.js:724-764 | one append leaves the history keyed and sorted, stores the merged entry, and touches no other |
| `HistoryFile.AppendMore` | bench/history.js:731-748 | appending to an existing entry succeeds if and only if commit and recorded URL, if any, agree and the report is compatible; the entry then holds what it can store, and other entries stay |
| `HistoryFile.AppendRefused` | bench/history.js:732-748 | which refusal comes first: another commit under the id, another URL, a conflict |
| `HistoryFile.AppendAllMore` | bench/history.js:724-764 | the same for a series, other entries untouched throughout |
| `HistoryFile.SeriesMeaning` | bench/history.js:724-764 | any series from any history, new entry or not, in terms of merging reports |
| `HistoryFile.SeriesOfAppends` | bench/history.js:724-764 | a series from any history succeeds if and only if its entry may be joined, all reports fit it, and they fit one another in what it can store; no other entry has changed |
| `HistoryFile.OutcomeExact` | bench/history.js:724-764 | two series have the same outcome, entry by entry, if and only if they leave the same body |
| `HistoryFile.JoiningOrder` | bench/history.js:731-748 | from any history, the order of a series that joins an entry never shows: every order fails, or every order leaves the same entries |
| `HistoryFile.MakingOrder` | bench/history.js:749-757 | from any history, the order of a series that makes its entry never shows if and only if all reports have a `__proto__` scenario, or none has, or two conflict elsewhere |
| `HistoryFile.Store.AppendHistoryEntry` | bench/history.js:724-764 | the update of the history object does one append or, on any error, nothing |
| `Base64Url.EncodeShape` | fuzz/fuzz_targets/fuzz_auth_tokens.rs:45-65 | encodings use the alphabet, have clear unused bits and the length of section 5 of RFC 4648 without padding |
| `Base64Url.ShortVectors` | fuzz/fuzz_targets/fuzz_auth_tokens.rs:45-65 | test vectors of RFC 4648, and the two characters that differ from plain base64 |
| `Base64Url.LongVector` | fuzz/fuzz_targets/fuzz_auth_tokens.rs:45-65 | the longest test vector of RFC 4648 |
| `Base64Url.DecodeEncoded` | fuzz/fuzz_targets/fuzz_auth_tokens.rs:45-65 | the bits behind an encoding are the encoded bytes |
| `Base64Url.EncodeDecoded` | crates/aero-auth-tokens/src/lib.rs:181-208 | a text with clear unused bits is the encoding of the bytes behind it |
| `Base64Url.CheckExact` | crates/aero-auth-tokens/src/lib.rs:159-209 | the verifier accepts exactly the encodings of nonempty byte strings within the length limit |
| `Base64Url.MakeNoncanonical` | fuzz/fuzz_targets/fuzz_auth_tokens.rs:67-80 | overwriting the last byte in place gives the altered text |
| `Base64Url.AlteredIsRefused` | fuzz/fuzz_targets/fuzz_auth_tokens.rs:67-80 | whatever the text, its altered form is refused when its length leaves unused bits |
| `Base64Url.AlteredEncoding` | fuzz/fuzz_targets/fuzz_auth_tokens.rs:67-80 | altering an encoding changes its last character only, still decodes leniently to the same bytes, and is always refused; lengths divisible by 3 are left alone |
| `Base64Url.SameBits` | fuzz/fuzz_targets/fuzz_auth_tokens.rs:74-77 | setting the lowest bit of the last character does not show in the bytes |
| `TraceFormat.RowsReadBack` | crates/aero-gpu-trace/src/reader.rs:273-287 | a table of 32-byte rows reads back wherever it stands in a byte string |
| `TraceFormat.SubmissionReadsBack` | crates/aero-gpu-trace/src/reader.rs:357-420 | a submission payload, its fixed part and all its ranges, decodes to the submission |
| `TraceFormat.PayloadReadsBack` | crates/aero-gpu-trace/src/reader.rs:316-421 | every record type decodes from its own payload |
| `TraceFormat.RecordReadsBack` | crates/aero-gpu-trace/src/writer.rs:324-342 | a written record is read back at its position, whatever stands around it, and the reader stops right behind it |
| `TraceFormat.RecordsReadBack` | crates/aero-gpu-trace/src/reader.rs:164-187 | a run of written records is read back as exactly those records |
| `TraceFormat.EncodeAllInjective` | crates/aero-gpu-trace/src/writer.rs:324-342 | different runs of records never have the same bytes |
| `TraceLayout.RecordSpelled` | crates/aero-gpu-trace/src/writer.rs:324-343 | every record byte by byte: type, zeros, length, and each field little-endian at its offset |
| `TraceLayout.StreamSpelled` | crates/aero-gpu-trace/src/writer.rs:324-343 | each record of a stream stands so behind the ones before it |
| `TraceLayout.ContainerSpelled` | crates/aero-gpu-trace/src/writer.rs:271-314 | header, metadata, stream, table of contents and footer, each field at its offset |
| `TraceLayout.OpenExact` | crates/aero-gpu-trace/src/reader.rs:77-158 | any file opens as a trace if and only if its bytes say so, down to each bound on each frame |
| `TraceLayout.HeaderErrors` | crates/aero-gpu-trace/src/reader.rs:190-218 | why the front of a file is refused, the first reason first |
| `TraceLayout.RecordErrors` | crates/aero-gpu-trace/src/reader.rs:292-422 | why a record is refused, by its type, length and kind |
| `TraceFile.ReadRecordsInRange` | crates/aero-gpu-trace/src/reader.rs:164-187 | the seek-and-read loop with its bound checks gives the records of the range or the first error |
| `TraceFile.ReadRows` | crates/aero-gpu-trace/src/reader.rs:273-287 | the loop over the table of contents reads exactly its rows |
| `TraceFile.CheckEntries` | crates/aero-gpu-trace/src/reader.rs:136-149 | the loop over an untrusted table accepts it if and only if every frame lies in the stream and its present position in the frame |
| `TraceFile.Open` | crates/aero-gpu-trace/src/reader.rs:77-158 | opening, check by check in source order, gives the file or the first error of the specification |
| `TraceFile.OpenIsSafe` | crates/aero-gpu-trace/src/reader.rs:77-158 | whatever the bytes: a file that opens has its table inside the file, behind the stream, and every frame and present position inside the stream |
| `TraceFile.ContainerOpens` | crates/aero-gpu-trace/src/reader.rs:77-158 | a container opens if and only if every frame of its table lies in the stream, and then with exactly the version, metadata and table put in |
| `TraceFile.RangeReadsBack` | crates/aero-gpu-trace/src/reader.rs:164-187 | a frame that spans whole records reads back as those records from the finished file |
| `TraceLog.AppendKeeps` | crates/aero-gpu-trace/src/writer.rs:139-231 | writing a record into the open frame, or a blob anywhere, keeps table and log in agreement |
| `TraceLog.BeginKeeps` | crates/aero-gpu-trace/src/writer.rs:113-137 | so does beginning a frame |
| `TraceLog.PresentKeeps` | crates/aero-gpu-trace/src/writer.rs:233-248 | so does presenting it |
| `TraceLog.StretchReadsBack` | crates/aero-gpu-trace/src/reader.rs:164-187 | any stretch of the log reads back from the positions the writer had before and behind it |
| `TraceLog.FramesInStream` | crates/aero-gpu-trace/src/writer.rs:250-269 | the table a writer ends with is one the reader accepts |
| `TraceLog.FinishedReadsBack` | crates/aero-gpu-trace/src/writer.rs:250-269 | a finished file opens with the writer's table; its stream is every record written; each frame is its own records from begin to present; its present position reads the present record |
| `TraceWriter.Writer.constructor` | crates/aero-gpu-trace/src/writer.rs:94-107 | a new writer has written header and metadata and nothing else |
| `TraceWriter.Writer.Create` | crates/aero-gpu-trace/src/writer.rs:72-107 | refuses unknown versions and metadata past 32 bits, each with its own error |
| `TraceWriter.Writer.WriteRecord` | crates/aero-gpu-trace/src/writer.rs:324-342 | appends exactly the bytes of one record, or nothing when the payload is too long |
| `TraceWriter.Writer.Begin` | crates/aero-gpu-trace/src/writer.rs:113-137 | fails exactly for an open frame or a repeat of the last index, changing nothing; else opens a frame at the current position |
| `TraceWriter.Writer.WritePacket` | crates/aero-gpu-trace/src/writer.rs:139-145 | fails without an open frame or for a packet past 32 bits; else adds one packet |
| `TraceWriter.Writer.WriteBlob` | crates/aero-gpu-trace/src/writer.rs:147-159 | adds one blob under the next number, in or outside a frame; a blob too large uses up its number |
| `TraceWriter.Writer.WriteSubmission` | crates/aero-gpu-trace/src/writer.rs:161-231 | adds the blobs and then the record that refers to them, exactly when version, frame and sizes allow; on failure exactly the blobs before the first that does not fit stay; the next blob number is stated in every case; the bytes written end with the submission record, each field and each range of the capture at its offset |
| `TraceWriter.SubmissionLayout` | crates/aero-gpu-trace/src/writer.rs:198-222 | the record of a submission byte by byte: flags, context, engine, fence, blob numbers, and per range allocation, flags, address, size and blob number |
| `TraceWriter.Writer.Present` | crates/aero-gpu-trace/src/writer.rs:233-248 | closes the open frame exactly when the index matches, noting both positions |
| `TraceWriter.Writer.Finish` | crates/aero-gpu-trace/src/writer.rs:250-269 | fails exactly with an open frame or too many frames; a file below 2^64 bytes reads back completely; with at most 2^64 numbers issued no two blobs share one |
| `TraceWriter.RangesResolve` | crates/aero-gpu-trace/src/writer.rs:181-191 | every range of a submission carries the number of the blob that holds its bytes |
| `TraceWriter.SubmissionNumbered` | crates/aero-gpu-trace/src/writer.rs:174-191 | the blobs of a submission are numbered consecutively, with wrap-around |
| `TraceWriter.SubmissionResolves` | crates/aero-gpu-trace/src/writer.rs:174-191 | looking a range's number up among the blobs of its submission finds the captured bytes and no others |
| `TraceWriter.NumbersDistinct` | crates/aero-gpu-trace/src/writer.rs:147-149 | numbers handed out in order are distinct over the whole log until they come round |
| `TraceWriter.ReferencesResolve` | crates/aero-gpu-trace/src/writer.rs:174-230 | in a whole log with distinct numbers, command, table and range references of a submission name the blobs with the captured bytes and nothing else |
| `TraceWriter.ZeroMeansNoTable` | crates/aero-gpu-trace/src/writer.rs:176-179 | reference 0 means no table, or a table whose number wrapped to 0, and nothing else |
| `TraceScan.ClampExact` | fuzz/fuzz_targets/fuzz_aerogpu_trace_read.rs:17-25 | a clamped range is the longest at most 64 KiB prefix of the request inside the file, and there is none exactly when the request holds no byte of the file |
| `TraceScan.TryParseTrace` | fuzz/fuzz_targets/fuzz_aerogpu_trace_read.rs:27-76 | the loop with its flag scans the frame ranges in order, then the stream range exactly when no frame range equals it |
| `TraceScan.ScanIsBounded` | fuzz/fuzz_targets/fuzz_aerogpu_trace_read.rs:27-76 | whatever the file: at most 65 scans, each nonempty, at most 64 KiB and inside the file, and a nonempty stream is always covered from its start |
| `TraceScan.ScannedExactly` | fuzz/fuzz_targets/fuzz_aerogpu_trace_read.rs:27-75 | exactly the ranges the first 32 frames ask for, and the record stream, are scanned |
| `TraceScan.NotScanned` | fuzz/fuzz_targets/fuzz_aerogpu_trace_read.rs:29-32 | a file that does not open is not scanned |
| `TraceScan.BuildSyntheticContainer` | fuzz/fuzz_targets/fuzz_aerogpu_trace_read.rs:83-139 | appending the parts to a vector gives the container |
| `TraceScan.SyntheticOpens` | fuzz/fuzz_targets/fuzz_aerogpu_trace_read.rs:83-139 | the synthetic container of any stream opens with one frame that is exactly the stream |
| `TraceScan.SyntheticScannedOnce` | fuzz/fuzz_targets/fuzz_aerogpu_trace_read.rs:141-154 | a nonempty stream of at most 64 KiB is scanned exactly once, whole |
| `TraceScan.SyntheticReadsBack` | fuzz/fuzz_targets/fuzz_aerogpu_trace_read.rs:83-139 | records put into a synthetic container are what its scan yields |
| `GuestMemory.ReadExact` | fuzz/fuzz_targets/fuzz_ahci.rs:64-81 | a read gives the memory bytes, zeros past the end of memory, and only zeros when its end passes 2^64 |
| `GuestMemory.WriteExact` | fuzz/fuzz_targets/fuzz_ahci.rs:83-99 | a write changes exactly the bytes of memory it covers, and none when its end passes 2^64 |
| `GuestMemory.ReadJoin` | fuzz/fuzz_targets/fuzz_ahci.rs:64-81 | reading in pieces is reading at once |
| `GuestMemory.WriteJoin` | fuzz/fuzz_targets/fuzz_ahci.rs:83-99 | writing in pieces is writing at once |
| `GuestMemory.FuzzBus.constructor` | fuzz/fuzz_targets/fuzz_ahci.rs:55-60 | memory starts as the clipped initial bytes and zeros |
| `GuestMemory.FuzzBus.ReadPhysical` | fuzz/fuzz_targets/fuzz_ahci.rs:64-81 | the buffer copy computes the clipped read |
| `GuestMemory.FuzzBus.WritePhysical` | fuzz/fuzz_targets/fuzz_ahci.rs:83-99 | the in-place copy computes the clipped write |
| `AhciCommand.CfisReadsBack` | crates/aero-devices-storage/src/ahci.rs:875-902 | every block address below 2^48 and every count from 1 to 65536 is what the device extracts, with 65536 stored as 0 |
| `AhciCommand.CfisSpelled` | fuzz/fuzz_targets/fuzz_ahci.rs:398-417 | the command FIS byte by byte |
| `AhciCommand.HeaderRead` | crates/aero-devices-storage/src/ahci.rs:910-920 | what the device makes of the words of any header |
| `AhciCommand.PrdRead` | crates/aero-devices-storage/src/ahci.rs:933-942 | what it makes of any descriptor: 64 bits of address, 22 bits of byte count stored less one |
| `AhciCommand.HeaderReadsBack` | crates/aero-devices-storage/src/ahci.rs:910-920 | table address and number of descriptors read back from the header words |
| `AhciCommand.PrdReadsBack` | crates/aero-devices-storage/src/ahci.rs:933-942 | address and byte count of 1 byte to 4 MiB read back from a descriptor |
| `AhciCommand.TableHeld` | fuzz/fuzz_targets/fuzz_ahci.rs:171-178 | writing later descriptors leaves earlier ones standing |
| `AhciCommand.TableKeeps` | fuzz/fuzz_targets/fuzz_ahci.rs:171-178 | writing a table touches nothing outside it |
| `AhciSetup.PlacedInside` | fuzz/fuzz_targets/fuzz_ahci.rs:102-112 | a region is placed inside memory if and only if it fits, at a multiple of the alignment when that is a power of two |
| `AhciSetup.PlanTiles` | fuzz/fuzz_targets/fuzz_ahci.rs:421-433 | descriptors tile the buffer without gap or overlap, then come one-byte fillers behind it |
| `AhciSetup.PlanGathers` | fuzz/fuzz_targets/fuzz_ahci.rs:421-433 | with enough descriptors the first bytes of the list are exactly the buffer |
| `AhciSetup.WriteTable` | fuzz/fuzz_targets/fuzz_ahci.rs:421-433 | the loop with its remaining count and cursor writes the planned descriptors |
| `AhciSetup.StructuresReadBack` | fuzz/fuzz_targets/fuzz_ahci.rs:152-182 | when header and table fit apart from each other, the device finds table address, length, command FIS and every descriptor as laid out (sections 4.2.2 and 4.2.3 of the AHCI 1.3.1 specification) |
| `AhciSetup.PreparedSpelled` | fuzz/fuzz_targets/fuzz_ahci.rs:152-182 | the prepared memory word by word: header flags, byte count, table address, command FIS, and each descriptor |
| `AhciDma.Drive.WriteSectors` | crates/aero-storage/src/disk.rs:85-97 | succeeds exactly for whole sectors inside the disk, and changes only them |
| `AhciDma.Drive.ReadSectors` | crates/aero-storage/src/disk.rs:71-83 | succeeds exactly for whole sectors inside the disk |
| `AhciDma.StoredExact` | crates/aero-storage/src/disk.rs:85-97 | the disk after a write, byte by byte |
| `AhciDma.PiecesAreOneRead` | crates/aero-devices-storage/src/ahci.rs:1108-1137 | inside the address space, fetching a descriptor piece by piece is one read |
| `AhciDma.FetchMeaning` | crates/aero-devices-storage/src/ahci.rs:1097-1138 | when no descriptor passes 2^64, what is fetched is the front of what the list stands for |
| `AhciDma.WriteSegment` | crates/aero-devices-storage/src/ahci.rs:1106-1137 | one descriptor's bytes join the pending ones in order; whole sectors reach the disk, the rest stays pending; on a disk error the sectors before it stay |
| `AhciDma.TableFitsWell` | crates/aero-devices-storage/src/ahci.rs:1097-1138 | which pieces the disk takes: all whole sectors if they fit, else those before the first piece that does not, which leave less room than one piece can take |
| `AhciDma.DmaWrite` | crates/aero-devices-storage/src/ahci.rs:1055-1154 | succeeds if and only if list and disk are large enough, and each error has its own exact condition; in every case, however descriptors cut sectors and wherever they point, the disk holds whole sectors from the front of the fetched bytes and is otherwise unchanged: all after a success, all that were fetched after a short list, those of the pieces before the refused one after a disk error |
| `AhciScatter.ReadStep` | crates/aero-devices-storage/src/ahci.rs:1008-1042 | each step yields the next bytes of the disk, keeping the rest of a begun sector, exactly when the disk has them |
| `AhciScatter.ReadSegment` | crates/aero-devices-storage/src/ahci.rs:1006-1042 | the loop over one descriptor fills it piece by piece, stopping where the disk ends |
| `AhciScatter.DmaRead` | crates/aero-devices-storage/src/ahci.rs:956-1053 | memory and outcome for every table, disk and address: each descriptor, read when its turn comes, is filled in turn; a short table or a disk error leaves what was filled before |
| `AhciScatter.ReadDescriptor` | crates/aero-devices-storage/src/ahci.rs:933-942 | the three word reads give the descriptor, never an empty one |
| `AhciScatter.FillIsScatter` | crates/aero-devices-storage/src/ahci.rs:997-1050 | when the disk has the range and no descriptor passes 2^64, the transfer is one write per descriptor, and finishes if and only if no byte is left over |
| `AhciScatter.FinishedHadEnough` | crates/aero-devices-storage/src/ahci.rs:1016-1031 | no transfer finishes with more bytes than the disk had, whatever the descriptors say |
| `AhciRun.GuestWriteArrives` | fuzz/fuzz_targets/fuzz_ahci.rs:394-433 | the descriptors the device finds in a prepared command stand for exactly the guest's buffer |
| `AhciRun.ScatterPlan` | crates/aero-devices-storage/src/ahci.rs:997-1043 | a planned table is filled page by page, and filling never reaches the table |
| `AhciRun.GuestReadArrives` | fuzz/fuzz_targets/fuzz_ahci.rs:394-433 | filling the descriptors of a prepared read leaves the stream in the buffer and nothing else changed |
| `AhciRun.Prepare` | fuzz/fuzz_targets/fuzz_ahci.rs:394-433 | the guest's writes into memory, header, command FIS and descriptors, give the laid-out memory |
| `AhciRun.CommandFound` | crates/aero-devices-storage/src/ahci.rs:744-797 | the device finds header, command, block address and sector count as the guest laid them out |
| `AhciRun.CompleteCommand` | crates/aero-devices-storage/src/ahci.rs:1188-1215 | the second word of the header counts the bytes, the rest of the header reads as before, the receive area holds the register FIS 34 40 50 00 and zeros, and every other byte is unchanged |
| `AhciRun.ProcessSlot` | crates/aero-devices-storage/src/ahci.rs:736-855 | a command slot, for the four 48-bit transfer commands: the result in every case, each error named, and what it leaves on the disk, in the header, in the receive area and elsewhere in memory |
| `AhciRun.GuestWrites` | crates/aero-devices-storage/src/ahci.rs:809-816 | end to end, for both write commands: the disk holds the buffer at its block address and is otherwise unchanged; the guest finds the byte count and the register FIS, and no other memory changed |
| `AhciRun.GuestReads` | crates/aero-devices-storage/src/ahci.rs:793-800 | end to end, for both read commands: the buffer holds the sectors asked for, the disk is unchanged; the guest finds the byte count and the register FIS, and no other memory changed |

## Left out

- Sockets, TLS, HTTP upgrade and its header checks, selection of a subprotocol by the server, timers, failed writes and re-entrant event handlers of `tools/minimal_ws.js`.
- Process spawning, cargo environment and the offline-then-online retry in `tools/rust_l2_proxy.js`: a build either succeeds or fails, and replaces the binary in one step.
- Dirty-tile bitmaps and rectangles of the shared framebuffer: bookkeeping beside the publication protocol.
- Devices whose reads have side effects, sparse RAM, and the per-width read shortcuts of the memory bus.
- HMAC and SHA-256 of the token tests: cryptography behind a library.
- Report normalisation, regression thresholds and floating-point statistics of the benchmarks.
- Escaping of trace metadata as JSON (metadata is any byte string here), write errors of the sink, and positions past 2^64 in the trace writer.
- AHCI registers, interrupts, snapshots, commands other than 48-bit transfers, the FIS written for a failed command, and the fuzz target's random register traffic.
- The wrapping 64-bit address arithmetic of the fuzz target's own layout code: its regions lie inside a memory of at most 1 MiB.
- AhciRun.GuestWrites: header, table and buffer are assumed apart from one another, which the fuzz target does not see to; `AhciRun.ProcessSlot` says what happens in every case.
- AhciRun.GuestReads: the same, and the receive area apart from the buffer.
- User interface, dashboards, smoke pages beyond the named functions, and the Python and contract-generation scripts.
