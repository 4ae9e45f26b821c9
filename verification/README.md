# BTC1 frame stack: a verified model

This project models the BoatConnect binary frame stack and proves what it promises:

- the CRC-32 that host and firmware compute in two different ways (`Bits.dfy`, `Crc32.dfy`);
- little-endian fields, the telemetry payload and the frame codec (`Wire.dfy`, `Payload.dfy`,
  `Frame.dfy`, `FrameProperties.dfy`), and what damage to its length field can do (`LengthDamage.dfy`);
- the incremental stream parser, first as functions on byte strings (`Stream.dfy`), then as the class
  with its growable, in-place buffer (`StreamParser.dfy`), with its behaviour over whole runs
  (`Delivery.dfy`, `Resilience.dfy`);
- the stroke detector and its pruned history (`Strokes.dfy`, `StrokeRate.dfy`);
- the fleet hub, several connections into it, the serial transport, and what listeners hear over all of
  it (`FleetHub.dfy`, `Connections.dfy`, `SerialTransport.dfy`, `Listeners.dfy`);
- the firmware with its packed structs, and the path from the boat nodes over the gateway and the serial
  line to the hub's listeners and maps (`Firmware.dfy`, `EndToEnd.dfy`).

`dafny verify dfyconfig.toml` checks everything.

## How to read the model

Code that works in place is a class or a method over arrays, and each such method is proved against a
function: `FrameParser.Push` against `Stream.Push`, `TableCrc32` and `BcCrc32` against `Checksum`,
`EncodeFrame` against `Encoded`, the estimator's methods against `AfterSample`, `Pruned` and `Answer`,
the hub's methods against `After(trace)`. The lemmas about whole runs are about these functions, and
`Valid()` of each class says that the object is the result of such a run.

Exceptions are error codes in a `Result`, or an out-parameter `thrown`. Callbacks are events in the order
in which they are made. The clock is a parameter. Minus infinity is an `Option`. A parser with an error
handler is called tolerant here, one without is called strict.

Bytes are numbers and the CRC register is a 32-bit word. The two are converted through binary digits
(`Bits.dfy`), which keeps those proofs inductive. Many lemmas `hide` definitions that they do not need;
hiding only takes facts away from a proof.

## What the code does that its description does not say

- **A push can lag.** After a run of back-to-back frames a push realigns once and returns, so a complete
  frame behind junk is delivered by a later push. `Resilience.NoLagExactly` says when: a push delivers all
  that has arrived if and only if no whole frame is in front after that one realignment
  (`Resilience.FrameBehindJunkWaits` is an input where it is). The parser is therefore not equal to one
  parse of the whole stream. It refines it with a lag (`Stream.RunLags`). Streams of frames, with or
  without junk in front, have no lag at all (`Delivery.ExactDelivery`).
- **An oversize header blocks the stream.** `PROTOCOL.md` asks receivers to drop oversize frames; the
  stream parser keeps such a header in front for ever, and only such a header silences it
  (`Resilience.StuckExactly`; `Resilience.OversizeSilences` is such a stream). One message of that kind
  passes the gateway's filter and silences the host for all later reports
  (`EndToEnd.OversizeMessageSilences`). Otherwise, and without a lag, at most 2069 bytes wait
  (`Resilience.MemoryIsBounded`).
- **A strict parser is stuck after an error.** It throws before it removes the bad frame
  (`Resilience.StrictPushThrows` is such a push), so every later push throws again
  (`Resilience.ThrowIsFinal`). Its run is the tolerant one up to the first bad frame, exactly
  (`Resilience.StrictRunStops`).
- **The reserved byte is not checked.** `PROTOCOL.md` says it must be zero; decoding accepts any value, so
  re-encoding restores a frame exactly when the byte is zero (`FrameProperties.EncodeOfDecoded`). Every
  accepted encoded frame has accepted twins with another value (`FrameProperties.ReservedByteAccepted`).
- **Short bursts are always noticed, unless the frame then announces a shorter payload.** For damage to
  the length field alone, the two lengths decide (`LengthDamage.LengthDamageExactly`): four or more apart
  it can always go unnoticed (`LengthDamage.FarIsConfusable`), and less than four apart a test on the two
  numbers tells (`LengthDamage.NearExactly`). 123 can become 120, 3 can not become 0
  (`LengthDamage.ThreeApartDiffers`).
- **Who spoke last depends on the interleaving** when two connections carry one boat and end on different
  frames of it, and only then (`Connections.InterleavingExactly`).
- **The rate window does not end at `nowMs`.** Strokes later than `nowMs` are counted too, and a question
  about an early time after a late one can miss pruned strokes. `StrokeRate.WindowRateExactly` says when
  the answer is right all the same: if and only if as many strokes of the window have been pruned as
  later ones are counted. `StrokeRate.LaterStrokeIsCounted` and `StrokeRate.EarlyQuestionUndercounts` are
  runs where it is wrong.

## Model

| member | source | states |
|---|---|---|
| Crc32.BuildTable | src/codec/crc32.ts:4-11 | the loops fill the table so that entry `i` is the register after eight shifts of `i` |
| Crc32.TableCrc32 | src/codec/crc32.ts:13-19 | the table-driven loop, from any initial register, computes the bit-wise register of the data, complemented |
| Crc32.BcCrc32 | firmware/boatconnect_crc32.c:7-17 | the firmware's bitwise loop computes the same checksum as the host's table, on every byte string |
| Crc32.StepsLinear | src/codec/crc32.ts:7-9 | any number of register shifts is linear over exclusive or |
| Crc32.EightSteps | src/codec/crc32.ts:16 | eight shifts of a word are those of its low byte combined with the word moved down: why a 256-entry table is enough |
| Crc32.RegisterIsSerial | src/codec/crc32.ts:13-19 | the byte-wise register is the one fed bit by bit, lowest bit first |
| Crc32.ChecksumChains | src/codec/crc32.ts:13-19 | the checksum of a concatenation is the checksum of the second part started from the complemented checksum of the first |
| Crc32.CheckValue | test/frame.test.ts:79-82 | the checksum of the digits 1 to 9 is cbf43926 hexadecimal |
| Crc32.SerialInjective | src/codec/crc32.ts:13-19 | equal data never merges two different registers |
| Crc32.SerialSeesBits | src/codec/crc32.ts:13-19 | from one register, two different strings of up to 32 bits lead to different registers |
| Crc32.BurstChangesRegister | src/codec/crc32.ts:13-19 | messages that differ only within 32 consecutive bits never leave the same register |
| Wire.ChecksumIffResidue | src/codec/frame.ts:102-106 | four bytes are the little-endian checksum of a body if and only if feeding body and bytes leaves one fixed residue |
| Wire.FieldRoundTrip | src/codec/payload.ts:9-15 | reading a written field gives the number modulo the range of the field |
| Wire.FieldRewrite | src/codec/payload.ts:28-34 | writing the number read from a field gives its bytes back |
| Wire.SignedRoundTrip | src/codec/payload.ts:10-11 | a signed 32-bit field gives back every number of its range, and otherwise a number of that range congruent modulo 2^32 |
| Wire.WordRoundTrip | src/codec/frame.ts:59-60 | the checksum word survives being written and read |
| Wire.WordRewrite | src/codec/frame.ts:102 | four bytes are the bytes of the word read from them |
| Payload.EncodeTelemetrySummary | src/codec/payload.ts:6-17 | the in-place field writes produce the seven fields one after the other |
| Payload.TelemetryFields | PROTOCOL.md:33-41 | every field lies at the offset and with the width of the protocol table |
| Payload.TelemetryRoundTrip | src/codec/payload.ts:6-36 | decoding an encoded record gives it back with every field cut to its width, coordinates as signed numbers |
| Payload.TelemetryRewrite | src/codec/payload.ts:6-36 | encoding a decoded 26-byte payload gives the payload back |
| Frame.WriteHeader | src/codec/frame.ts:24-42 | writes exactly the 18 header bytes and leaves the rest of the buffer alone |
| Frame.EncodeFrame | src/codec/frame.ts:44-62 | returns header, payload and checksum for the input with its defaults, or the length error |
| Frame.EncodeHeartbeat | src/codec/frame.ts:64-66 | encodes the heartbeat type with an empty payload |
| Frame.EncodeTelemetrySummaryFrame | src/codec/frame.ts:68-74 | encodes the telemetry type with the encoded record as payload |
| FrameProperties.AcceptedIsSliceable | src/codec/frame.ts:76-139 | an accepted buffer starts with a frame that slicing also finds |
| FrameProperties.EncodedParts | src/codec/frame.ts:24-62 | an encoded frame is exact, its checksum holds, and every header field lies at its offset, cut to its width |
| FrameProperties.DecodeOfEncoded | src/codec/frame.ts:44-122 | decoding any encoded frame gives the fields modulo their widths, or the exact error code for a wrong version, a heartbeat with payload or a telemetry payload of the wrong size |
| FrameProperties.HeartbeatArrives | src/codec/frame.ts:64-66 | an encoded heartbeat has 22 bytes and decodes to type 0 with its fields cut to their widths and no payload |
| FrameProperties.PayloadLimit | src/codec/frame.ts:44-62 | a payload of up to 2048 bytes goes through encoding, slicing and decoding, a longer one is refused with its code, and without a payload the frame has 22 bytes and announces 0 |
| FrameProperties.TelemetryArrives | src/codec/frame.ts:68-122 | a telemetry frame of version 1 decodes to its record with every field cut to its width |
| FrameProperties.EncodeOfDecoded | src/codec/frame.ts:44-122 | encoding a decoded frame again restores its bytes if and only if the reserved byte was zero |
| FrameProperties.ReservedByteAccepted | src/codec/frame.ts:76-122 | every accepted encoded frame, sealed with any other reserved byte, decodes to the same frame and is not restored by encoding that frame again |
| FrameProperties.SelfDelimiting | src/codec/frame.ts:125-139 | no exact frame is a proper prefix of another |
| FrameProperties.UniqueSplit | PROTOCOL.md:3 | a concatenation of exact frames splits into exact frames in one way only |
| FrameProperties.SliceOfExact | src/codec/frame.ts:125-139 | slicing returns an exact frame whatever follows it |
| FrameProperties.DecodeIgnoresTail | src/codec/frame.ts:76-139 | a buffer and the frame sliced from it decode to the same frame or the same error |
| FrameProperties.BurstDetected | src/codec/frame.ts:76-106 | any change within 32 consecutive bits of a frame with a good checksum, trailer included, makes decoding fail unless the frame then announces a shorter payload, and the error code is the one that its bytes call for |
| FrameProperties.EncodedBurstDetected | src/codec/frame.ts:44-122 | the same for every frame the encoder produces |
| FrameProperties.BurstCodes | src/codec/frame.ts:76-106 | of a version 1 frame that keeps its length, a burst in the magic gives MAGIC, one in the version that spares the magic VERSION, any other CRC |
| FrameProperties.PrefixTruncated | src/codec/frame.ts:77-99 | every proper prefix of an encoded version 1 frame decodes to TRUNCATED |
| FrameProperties.DamageDecodes | src/codec/frame.ts:76-106 | a frame whose checksum is bad wherever it is looked for is refused with the code that its bytes call for |
| FrameProperties.ReplacedBytesDetected | test/frame.test.ts:43-48 | replacing up to four consecutive bytes of an encoded frame, except in the announced length, always makes decoding fail with the code that the bytes call for |
| LengthDamage.RegisterLinear | src/codec/crc32.ts:13-19 | a difference in the register is only shifted by the data that follows, whatever the data |
| LengthDamage.PassingIsConfusable | src/codec/frame.ts:94-106 | if the length field of a good frame is damaged to a shorter length and the checksum there holds, the two lengths are confusable |
| LengthDamage.ConfusablePasses | src/codec/frame.ts:94-106 | conversely, confusable lengths give such a pair for every 16 bytes before the length and every payload of the shorter length |
| LengthDamage.LengthDamageDetected | src/codec/frame.ts:94-106 | any damage to the length field alone makes decoding fail, with the code for it, unless the two lengths are confusable |
| LengthDamage.LengthDamageExactly | src/codec/frame.ts:76-122 | two accepted frames that differ in the length field only, announcing two given lengths, exist if and only if the lengths are confusable |
| LengthDamage.NearExactly | src/codec/frame.ts:94-106 | for lengths at most four apart, a test on the two numbers decides whether they are confusable |
| LengthDamage.FarIsConfusable | src/codec/frame.ts:94-106 | lengths four or more apart are always confusable |
| LengthDamage.ThreeApartDiffers | src/codec/frame.ts:94-106 | 123 and 120 are confusable, 3 and 0 are not |
| LengthDamage.ShorterLengthUndetected | src/codec/frame.ts:94-106 | every header and payload begin an accepted frame, at least four bytes longer, that turns into another accepted frame when its length is damaged |
| Stream.AlignFindsFirst | src/codec/stream-parser.ts:14-29 | alignment stops at the first magic, or keeps the last three bytes when there is none |
| Stream.AlignLaw | src/codec/stream-parser.ts:14-29 | aligning before or only after more bytes arrive gives the same buffer, so no magic cut in two is lost |
| Stream.ParseComposes | src/codec/stream-parser.ts:44-79 | parsing a stream is parsing a first part, then what that left together with the second part |
| Stream.PushLags | src/codec/stream-parser.ts:44-79 | the events of one tolerant push followed by those its buffer still holds are the events of buffer and chunk |
| Stream.RunLags | src/codec/stream-parser.ts:44-79 | for every stream cut into any chunks, the events so far followed by those of the buffer are the events of the whole input, and both leave the same rest |
| StreamParser.CopyToFront | src/codec/stream-parser.ts:23 | the overlapping copy, byte by byte, moves the range to the front |
| StreamParser.AlignMagicFront | src/codec/stream-parser.ts:14-29 | the in-place scan and copy leave exactly the aligned bytes |
| StreamParser.FrameParser.Push | src/codec/stream-parser.ts:44-79 | callbacks, buffer and thrown error of the class are those of the function, and the object stays the result of a run over its chunks |
| StreamParser.FrameParser.Grow | src/codec/stream-parser.ts:45-52 | doubling makes room, keeps the waiting bytes, allocates only when needed and never as much as twice the need above 64 |
| StreamParser.FrameParser.DrainFrames | src/codec/stream-parser.ts:58-78 | the drain loop does what the drain function does, including the throw before removal |
| StreamParser.FrameParser.Account | src/codec/stream-parser.ts:44-79 | for a tolerant parser object at any time, the callbacks made followed by the frames still waiting are the frames of everything received |
| StreamParser.FrameParser.Reset | src/codec/stream-parser.ts:81-84 | an empty parser with a fresh account |
| StreamParser.FrameParser.PendingLength | src/codec/stream-parser.ts:87-89 | the number of bytes waiting |
| Delivery.AlignSkipsJunk | src/codec/stream-parser.ts:14-29 | junk without a magic cannot hide the start of a frame, since the magic does not overlap itself |
| Delivery.WholeFits | src/codec/stream-parser.ts:58-78 | the count of whole frames is exact: so many fit in the received bytes and one more does not |
| Delivery.ReadableFirst | src/codec/stream-parser.ts:66-71 | the place where a strict parser stops is the first frame that does not decode |
| Delivery.RunStanding | src/codec/stream-parser.ts:44-79 | on junk and frames, events and buffer after a run are decided by the received bytes, not by the cuts |
| Delivery.ExactDelivery | src/codec/stream-parser.ts:44-79 | of frames after optional junk, cut anywhere, exactly the fully received ones are delivered, in order and at once, by a strict parser those before the first bad one; the buffer holds the cut frame, at most 2069 bytes, or everything from the bad one on |
| Resilience.DamageStaysLocal | src/codec/stream-parser.ts:58-78 | frames altered outside magic and length still give one event each, their own, for any cuts |
| Resilience.BurstsReported | src/codec/stream-parser.ts:58-78 | of encoded frames, each intact or hit by one burst, the intact ones are delivered as sent and every other one is reported as VERSION or CRC, according to what was hit |
| Resilience.NextPushProgresses | src/codec/stream-parser.ts:58-78 | while the buffer holds a frame, the next push delivers the first of them, whatever it brings |
| Resilience.CatchesUp | src/codec/stream-parser.ts:58-78 | as many empty pushes as frames waiting end the lag: events and buffer are then those of one full parse |
| Resilience.FrameBehindJunkWaits | src/codec/stream-parser.ts:61-64 | a frame, junk and a frame in one push: the second frame waits, although it has arrived |
| Resilience.NoLagExactly | src/codec/stream-parser.ts:58-65 | a tolerant push delivers every frame that has arrived if and only if the bytes behind the back-to-back frames, once realigned, do not start with a whole frame |
| Resilience.ParseResynchronises | src/codec/stream-parser.ts:14-29 | junk without a magic before, between and behind frames neither hides a frame nor adds one |
| Resilience.RunResynchronises | src/codec/stream-parser.ts:44-79 | of such a stream in any chunks, the events made and those still waiting are one per frame, in order |
| Resilience.ThrowIsFinal | src/codec/stream-parser.ts:66-77 | after a push throws, all later pushes deliver nothing and throw the same code |
| Resilience.StrictPushThrows | src/codec/stream-parser.ts:66-71 | a frame of another version makes a strict push throw and stay in the buffer |
| Resilience.StrictRunStops | src/codec/stream-parser.ts:66-77 | for every stream in any chunks, a strict run makes exactly the events of the tolerant run before the first bad frame, and is the same run if there is none |
| Resilience.StrictDrain | src/codec/stream-parser.ts:58-78 | a strict drain throws the error of the first bad frame of the tolerant drain |
| Resilience.StuckRuns | src/codec/frame.ts:132 | behind an oversize header nothing is ever delivered, in either mode |
| Resilience.FrontIsConsumed | src/codec/stream-parser.ts:58-78 | any other header is dealt with as soon as its announced bytes are there: its event comes first, or a strict parser throws it and keeps everything |
| Resilience.StuckExactly | src/codec/frame.ts:126-134 | in either mode, an aligned parser neither delivers nor throws anything whatever arrives if and only if an oversize header is in front |
| Resilience.OversizeSilences | src/codec/frame.ts:132 | a stream that begins with such a header silences a new parser and is kept whole |
| Resilience.OversizeBehindFrames | src/codec/frame.ts:132 | an oversize header behind any frames: for any chunks those frames are delivered, then nothing, and all the rest is kept |
| Resilience.GaplessRun | src/codec/stream-parser.ts:44-79 | if no part of a stream needs realigning behind its frames, any chunks have the effect of one drain, in either mode |
| Resilience.MemoryIsBounded | src/codec/stream-parser.ts:44-79 | after any chunks at most 2069 bytes wait, unless a whole frame is among them or an oversize header in front |
| Strokes.StrokesAreTheEarliestFirst | src/metrics/stroke-rate.ts:32-46 | the streaming strokes are the one set of peaks in which a peak belongs if and only if it keeps the gap to all earlier members |
| Strokes.StrokesAreMost | src/metrics/stroke-rate.ts:32-46 | for nondecreasing times, no set of peaks that keeps the gap has more members |
| Strokes.StrokesKeepGap | src/metrics/stroke-rate.ts:37-43 | the strokes are themselves such a set |
| Strokes.CountBackIsCount | src/metrics/stroke-rate.ts:53-57 | on ascending strokes the early exit of the counting loop loses nothing |
| Strokes.CountFromIsSize | src/metrics/stroke-rate.ts:53-57 | the count is the number of stroke positions at or after the start of the window |
| Strokes.EvenCount | src/metrics/stroke-rate.ts:53-57 | of evenly spaced strokes, the last at most one gap ago, a window of n gaps counts n |
| Strokes.PrunedCountExact | src/metrics/stroke-rate.ts:49-60 | counting after pruning is right if and only if the last pruned stroke is before the window |
| Strokes.WindowEndsAtNow | src/metrics/stroke-rate.ts:48-57 | the count is that of the window ending now if and only if no stroke is later |
| Strokes.PrunedWindowExact | src/metrics/stroke-rate.ts:49-60 | what is counted after pruning is the window that ends at the asked time if and only if as many of its strokes have been pruned as later ones are counted |
| Strokes.WindowHoldsFew | src/metrics/stroke-rate.ts:37-57 | with a positive gap, counting back over any pruned history gives at most the time from the start of the window to the last stroke divided by the gap, plus one |
| StrokeRate.AnswerAfterOldPruning | src/metrics/stroke-rate.ts:49-78 | an answer at most one window before the latest pruning is the rate of all strokes, if all pruned ones were two windows old |
| StrokeRate.PrunedAreAlwaysOld | src/metrics/stroke-rate.ts:69-78 | in every run, every pruned stroke was at least two windows old at the latest pruning |
| StrokeRate.AnswerIsFullRate | src/metrics/stroke-rate.ts:49-78 | in every run of samples, questions and resets, pruning does not change an answer at most one window before the latest pruning |
| StrokeRate.AnswerExact | src/metrics/stroke-rate.ts:49-78 | without that condition, the answer is right if and only if the last pruned stroke is before the window |
| StrokeRate.WindowRateExactly | src/metrics/stroke-rate.ts:48-60 | in every state and for every time, the answer is the rate of the window ending then if and only if as many strokes of that window have been pruned as later ones are counted |
| StrokeRate.AnswerIsWindowRate | src/metrics/stroke-rate.ts:48-60 | in particular, at most one window before the latest pruning, if and only if no stroke is later |
| StrokeRate.QuestionCountsFew | src/metrics/stroke-rate.ts:37-60 | in every run, a question counts at most so many strokes as the gap allows |
| StrokeRate.AnswerPerMinute | src/metrics/stroke-rate.ts:49-60 | in every run, for a time at most one window before the latest pruning, the answer times the window is 60000 for every stroke not before the window |
| StrokeRate.EvenStrokesRate | src/metrics/stroke-rate.ts:49-60 | strokes every d milliseconds are answered with 60000 / d per minute |
| StrokeRate.NoWindowNoRate | src/metrics/stroke-rate.ts:58 | without a positive window the answer is 0 |
| StrokeRate.StrokeMeans | src/metrics/stroke-rate.ts:32-46 | a new sample completes a stroke if and only if the sample before it rises above both neighbours, reaches the threshold and keeps the gap to the last stroke |
| StrokeRate.PruningKeepsTwoWindows | src/metrics/stroke-rate.ts:69-78 | after a pruning exactly the strokes of the last two windows are kept |
| StrokeRate.HistoryIsBounded | src/metrics/stroke-rate.ts:32-78 | in every run with samples in order, there are never more live strokes than two windows hold |
| StrokeRate.StrokeRateEstimator.StoreIsBounded | src/metrics/stroke-rate.ts:69-78 | the stored array, stale part included, is at most twice that |
| StrokeRate.LaterStrokeIsCounted | src/metrics/stroke-rate.ts:49-60 | a run in which a stroke later than the asked time is counted |
| StrokeRate.EarlyQuestionUndercounts | src/metrics/stroke-rate.ts:69-78 | a run in which an early question after a late one misses the only stroke |
| StrokeRate.StrokeRateEstimator.PushSample | src/metrics/stroke-rate.ts:32-46 | reports a stroke exactly when the new sample completes one, and keeps fields and history together |
| StrokeRate.StrokeRateEstimator.SpmAt | src/metrics/stroke-rate.ts:49-60 | returns the answer for the history, and prunes it |
| StrokeRate.StrokeRateEstimator.PruneOldStrokes | src/metrics/stroke-rate.ts:69-78 | head index and splice represent the pruned history, less than half of the store is stale, and splices have moved no more elements than they removed |
| StrokeRate.StrokeRateEstimator.Reset | src/metrics/stroke-rate.ts:62-67 | a fresh history |
| FleetHub.FleetHub.FeedStream | src/session/fleet-hub.ts:42-44 | the hub goes through the happenings of the pushed events in order, dispatching frames and reporting errors; buffer and thrown error are those of the parser |
| FleetHub.FleetHub.FeedDatagram | src/session/fleet-hub.ts:47-60 | a datagram is dispatched, reported or thrown, according to decoding and error handler |
| FleetHub.FleetHub.IngestDecoded | src/session/fleet-hub.ts:63-65 | one dispatch |
| FleetHub.FleetHub.Dispatch | src/session/fleet-hub.ts:67-71 | updates both maps and calls every listener once, in subscription order |
| FleetHub.FleetHub.CreateStreamParser | src/session/fleet-hub.ts:34-36 | a new empty parser with the hub's error policy |
| FleetHub.FleetHub.Subscribe | src/session/fleet-hub.ts:73-76 | adds a listener that is not there yet |
| FleetHub.FleetHub.Unsubscribe | src/session/fleet-hub.ts:75 | removes a listener |
| FleetHub.FleetHub.ClearBoat | src/session/fleet-hub.ts:102-105 | forgets a boat in both maps |
| FleetHub.FleetHub.ResetAll | src/session/fleet-hub.ts:107-111 | forgets all boats and empties the parser |
| FleetHub.FleetHub.ResetParser | src/session/fleet-hub.ts:113-115 | empties the parser and leaves the maps and listeners alone |
| FleetHub.FleetHub.GetLast | src/session/fleet-hub.ts:78-80 | the frame last dispatched for the boat since its last clear or reset |
| FleetHub.FleetHub.GetLastSeenMs | src/session/fleet-hub.ts:83-85 | the time of that dispatch |
| FleetHub.FleetHub.IsStale | src/session/fleet-hub.ts:88-92 | true if and only if there is no such dispatch or it is older than the limit |
| FleetHub.LatestIsKept | src/session/fleet-hub.ts:67-71 | after every history, both maps hold exactly the latest dispatch of each boat since its last clear or reset |
| FleetHub.MapsMean | src/session/fleet-hub.ts:67-111 | after every history, the maps hold a frame and a time if and only if it was dispatched then and no later dispatch, clear or reset overrules it |
| FleetHub.MapsHaveSameKeys | src/session/fleet-hub.ts:67-111 | after every history the two maps have the same keys |
| FleetHub.ListenersHearTheirFrames | src/session/fleet-hub.ts:67-76 | after every history a listener has been called with exactly the frames dispatched while it was subscribed |
| FleetHub.SubscribedMeans | src/session/fleet-hub.ts:73-76 | after every history, a listener is in the set if and only if some subscription of it is not followed by its departure |
| FleetHub.HandlerHearsErrors | src/session/fleet-hub.ts:28-36 | after every history the error handler has been called with exactly the errors of the history, in order |
| FleetHub.CallsInOrder | src/session/fleet-hub.ts:42-71 | a listener's frames and the reported errors come in the order of the history |
| FleetHub.ListenersInOrder | src/session/fleet-hub.ts:67-76 | after every history the listeners stand in the order in which their subscriptions began |
| FleetHub.EarlierIsCalledFirst | src/session/fleet-hub.ts:70 | of two subscribed listeners, the earlier subscriber is called first for each frame |
| FleetHub.DatagramIsStream | src/session/fleet-hub.ts:42-60 | one exact frame makes the same dispatches and throws the same error as a datagram and as a chunk for an empty parser, which keeps it if and only if it throws |
| FleetHub.DatagramWithFrame | src/session/fleet-hub.ts:47-60 | a datagram that starts with a whole frame dispatches, reports and throws what that frame does as a chunk for an empty parser, whatever follows it |
| FleetHub.DatagramWithoutFrame | src/session/fleet-hub.ts:47-60 | any other datagram dispatches nothing; its one error, with the code that its bytes call for, is reported by a tolerant hub and thrown by a strict one |
| FleetHub.HappeningsAt | src/session/fleet-hub.ts:42-44 | every event of a push is one step of the hub, in order, and a dispatch reads the clock after all earlier dispatches |
| Connections.ConnectionIsAlone | src/transports/tcp-server.ts:21-28 | in every schedule, each connection's buffer and events are those of its own chunks alone |
| Connections.OrderWithinConnection | src/transports/tcp-server.ts:21-28 | every interleaving logs a connection's events in that connection's order |
| Listeners.LogIsWitnessed | src/transports/tcp-server.ts:21-28 | frames and errors of all connections reach a subscribed listener and the error handler in the order of the log |
| Listeners.ListenerHearsLog | src/transports/tcp-server.ts:21-28 | a subscribed listener hears the frames of all connections in the order of the log |
| Listeners.HandlerHearsLog | src/transports/tcp-server.ts:21-28 | the error handler is called with the errors of all connections in that order |
| Listeners.ConnectionsAreHeard | src/transports/tcp-server.ts:21-28 | in every interleaving, what a listener and the error handler are called with is the log, whose part of each connection is that connection's events, parsed alone and in order |
| Listeners.BoatIsHeardInOrder | src/transports/tcp-server.ts:21-28 | when each boat speaks over one connection, a listener hears a boat's frames exactly as that connection alone delivers them |
| Connections.InterleavingExactly | src/transports/tcp-server.ts:21-28 | all interleavings and clocks leave the same map of latest frames if and only if any two connections that carry a boat end on the same frame of it |
| Connections.InterleavingDoesNotMatter | src/transports/tcp-server.ts:21-28 | in particular when each boat speaks over one connection |
| Connections.SharedBoatDependsOnOrder | src/session/fleet-hub.ts:67-71 | two connections with different frames of one boat: the last dispatch wins, so two interleavings leave different maps |
| SerialTransport.SerialPortTransport.OnData | src/transports/serial.ts:64-66 | the hub goes through the frames of one chunk in order; buffer and thrown error are those of the transport's own parser |
| SerialTransport.SerialPortTransport.ReceiveAll | src/transports/serial.ts:64-66 | over any number of chunks, the hub goes through what a run of that parser delivers |
| SerialTransport.StreamTraceLast | src/transports/serial.ts:64-66 | one more chunk adds what its push does, at the times read during that chunk |
| SerialTransport.SerialPortTransport.constructor | src/transports/serial.ts:45-47 | a new empty parser with the hub's error policy, apart from the hub's own |
| Firmware.FieldSplits | firmware/boatconnect_frame_v1.h:27-47 | a wide little-endian field is its low part followed by its high part, so stores in halves write the field |
| Firmware.HeaderMemoryIsHeader | firmware/boatconnect_frame_v1.h:27-37 | the packed header struct lies in memory as the protocol's header |
| Firmware.RecordMemoryIsPayload | firmware/boatconnect_frame_v1.h:39-47 | the packed telemetry struct lies in memory as the payload that a host encodes for the same values |
| Firmware.HostReadsRecord | firmware/boatconnect_frame_v1.h:39-47 | a host that decodes the struct's memory reads every field with its value |
| Firmware.Node.FillHeader | firmware/esp_ble_mesh_node/main/boatconnect_node_main.c:139-150 | the stores through the header pointer leave the struct's memory and nothing else |
| Firmware.Node.BuildTelemetryFrame | firmware/esp_ble_mesh_node/main/boatconnect_node_main.c:128-160 | header stores, record copy and checksum stores make byte for byte the frame a host encodes for the same values and the next counter value modulo 2^32, or nothing at all when the buffer is too small |
| Firmware.Node.PublishTelemetry | firmware/esp_ble_mesh_node/main/boatconnect_node_main.c:167-187 | nothing before provisioning, afterwards one such frame and one count |
| Firmware.Gateway.VendorRecv | firmware/esp_ble_mesh_gateway/main/boatconnect_gateway_main.c:152-166 | appends to the serial line what is forwarded and nothing else: nothing for another opcode, fewer than 22 bytes or no magic |
| Firmware.Gateway.ReceiveAll | firmware/esp_ble_mesh_gateway/main/boatconnect_gateway_main.c:152-166 | over any messages, the serial line grows by what is forwarded of each, in order |
| Firmware.NoiseIsDropped | firmware/esp_ble_mesh_gateway/main/boatconnect_gateway_main.c:143-162 | a message with another opcode, fewer than 22 bytes or no magic is dropped, every other one is written unchanged |
| Firmware.FilterPassesFrames | firmware/esp_ble_mesh_gateway/main/boatconnect_gateway_main.c:143-166 | whatever the host would accept, and every exact frame, is forwarded unchanged |
| EndToEnd.ReportArrives | firmware/esp_ble_mesh_node/main/boatconnect_node_main.c:128-160 | a node's frame is exact and decodes to the node's values unchanged |
| EndToEnd.PublishSchedule | firmware/esp_ble_mesh_node/main/boatconnect_node_main.c:167-187 | nodes with different boat ids publish in any order through the gateway: the serial line carries frames of reports that are, boat by boat, the node's records under its own counter |
| EndToEnd.ReportsReachTheHost | firmware/esp_ble_mesh_gateway/main/boatconnect_gateway_main.c:152-166 | of any reports reaching the gateway, from any boats and cut anywhere on the serial line, the host has decoded exactly those received in full, in order and unchanged |
| EndToEnd.LineIsSignals | firmware/esp_ble_mesh_gateway/main/boatconnect_gateway_main.c:143-166 | the serial line is the data of the messages that pass, one after the other |
| EndToEnd.ReportsReachTheHostPastNoise | firmware/esp_ble_mesh_gateway/main/boatconnect_gateway_main.c:143-166 | with any messages of other opcodes, short ones and ones without a magic in between, the line is exactly the frames of the reports and the host decodes exactly those received in full |
| EndToEnd.SequenceIsConsecutive | firmware/esp_ble_mesh_node/main/boatconnect_node_main.c:149 | whatever else is on the line, the host sees the first records of a node, none missing, with consecutive sequence numbers modulo 2^32, and all of them once everything has arrived |
| Listeners.ListenerHearsEvents | src/session/fleet-hub.ts:42-44 | a subscribed listener hears exactly the frames of a push, in order |
| Listeners.StreamIsWitnessed | src/session/fleet-hub.ts:42-76 | over all chunks, a subscribed listener and the error handler are called with exactly the events of the parser's run, in one order |
| Listeners.ListenerHearsStream | src/session/fleet-hub.ts:63-76 | over all chunks, a subscribed listener hears exactly the frames that the parser delivers |
| Listeners.HandlerHearsStream | src/session/fleet-hub.ts:28-36 | over all chunks, the error handler is called with exactly the codes of the bad frames, in order |
| Listeners.StreamUpdates | src/session/fleet-hub.ts:67-71 | over all chunks, the hub keeps the last delivered frame of each boat, or what it knew before |
| EndToEnd.ReportsReachTheHub | src/transports/serial.ts:64-66 | a listener has heard exactly the reports received in full, and the hub keeps the last of them for each boat |
| EndToEnd.NodeReachesTheHub | src/transports/serial.ts:64-66 | a listener hears a node's records without a gap, and the hub ends on the node's last one |
| EndToEnd.OversizeMessageSilences | firmware/esp_ble_mesh_gateway/main/boatconnect_gateway_main.c:143-166 | one message with a magic and an oversize length passes the filter and silences the host for all later messages |

## Left out

- FleetHub.FleetHub.FeedStream: as in `SerialPortTransport.OnData`, the hub's callbacks run after the parser's push instead of inside it, which is the same for callbacks that do not call back into parser or hub; callbacks that throw, re-enter or subscribe during a dispatch are not modelled.
- FrameProperties.BurstDetected: a burst that makes the frame announce a shorter payload is not claimed to be noticed; when exactly it can go unnoticed is stated for damage to the length field alone (`LengthDamage.LengthDamageExactly`), not for bursts that also hit bytes beside it.
- StrokeRate.StrokeRateEstimator.SpmAt: the rate is an exact real number; rounding, not-a-number and infinite values are not modelled, and times are whole milliseconds.
- Frame.DecodeFrame: the payload is a copy; in the code it is a view of the parser's buffer, which later pushes overwrite.
- Frame.EncodeFrame: inputs are whole numbers; the truncation of fractional inputs is not modelled.
- Firmware.Node.BuildTelemetryFrame: the telemetry record is a parameter (the repository fills it from a clock and random numbers), and the processor is taken to be little-endian, as the header file says.
- EndToEnd.PublishSchedule: every message reaches the gateway, in the order of publishing.
- EndToEnd.ReportsReachTheHost: loss, duplication and reordering in the mesh are covered only in that any sequence of reports may reach the gateway; log output mixed into the serial line is not modelled.
- Connections.InterleavingDoesNotMatter: sockets are not modelled, only that each connection owns one parser.
- Opening and closing of transports, provisioning, mesh and serial drivers, timers and key material: plumbing or foreign code.
- `src/metrics/dps.ts` and `src/metrics/telemetry-scale.ts`: floating-point conversions, which are outside the model.
- Snapshots of the hub's maps and the hub's pending byte count: copies of what is modelled.
