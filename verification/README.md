# The byte-level and protocol core of a GNSS daemon, in Dafny

The daemon reads a u-blox receiver, logs what it says, serves corrections as an NTRIP caster and takes
corrections as an NTRIP client. This project models the parts of it where bytes are cut into frames,
where answers without a tag are matched to requests, and where a unit of work must be whole or absent,
and proves what those parts are for. `dafny verify dfyconfig.toml` checks all of it.

| files | what they model |
|---|---|
| `Bytes`, `Options`, `PyInt` | byte strings, XOR on numbers, a value that may be missing, Python's `int(text, 16)` |
| `Crc` | CRC-24Q (section 4 of RTCM 10403.3), the UBX Fletcher sum (sections 3.2 and 3.4 of the u-blox F9 HPG 1.32 interface description), the NMEA XOR |
| `Frames`, `FrameProperties` | the parse of a mixed UBX/RTCM 3/NMEA stream as a function, against an independent greedy reference |
| `Encodings` | UBX, RTCM 3 and NMEA frames as a sender builds them, and that they are read back |
| `Chunking` | what feeding the stream in pieces does to the parse |
| `Framer` | the framer object: a buffer consumed in place, its counters, its cap |
| `Link`, `LinkRuns`, `OwnAnswer` | the request/answer link, its stale credits and robbed requests, over all runs |
| `Epochs` | epoch ends, by NAV-EOE or inferred |
| `RawLog` | the hourly raw logger, its sidecars and its guard against reopening an hour |
| `Wire`, `Ntrip` | caster queue, chunked encoding and decoding (section 7.1 of RFC 9112), client, end to end |
| `Replay` | replay of a recorded file, epoch by epoch |
| `Config` | isolating refused configuration keys, reading back, writing only what differs |
| `Marks` | time marks across reconnects (serial numbers as in section 3.2 of RFC 1982) |
| `Export` | publishing an export all or not at all; the manifest that states its own size |
| `Database` | transactions on one shared connection |

Conventions. A byte is a number below 256; a polynomial over GF(2) is the number whose bits are its
coefficients. Time is a whole number of ticks. Sockets and files are byte sequences. A digest is the
byte sequence that was hashed. Where an object of the source changes state, the model is a class whose
methods are tied to a function of the old state (`…Spec`), and the theorems are about that function and
about invariants of the class. Ghost state records what an onlooker would write down: which request an
answer really belongs to, what was fed, offered, accepted or replayed.

Main results, one per part:

* **Framer.** Feeding a stream in any pieces gives the frames, counters and leftover of parsing it whole
  *exactly when* no `$` position that the framer looks at holds a late sentence it can cut
  (`ChunkingExact`, both directions). The reason is in the source: the search covers 258 bytes
  (`frames.py` line 228) but the framer gives up at 256 (line 230). `ChunkingWitness` is a 257-byte
  sentence that is lost, `WiderWaitIsSafe` says that waiting for 258 repairs it for every stream, and
  `NoLateCrlfIsSafe` gives a condition that looks at nothing but CRLF positions. The parse itself is the
  leftmost-greedy split of the stream (`ParseIsGreedy`), what a sender encodes comes back frame by frame
  with nothing lost or left, in any pieces where no sentence is longer than 256 bytes (`SentReadBack`,
  `SentInPieces`), every byte is accounted for (`Accounting`; for any chunks and any cap it is an invariant
  of `Framer`), and at most 8199 bytes are held back (`HeldBack`).
* **Checksums.** The table loop is division by the generator; division is linear, gives zero on a
  codeword and never on a burst of up to 24 bits. The Fletcher loop is its closed form and notices every
  single change and every swap of unequal neighbours.
* **Link.** Over every run: a request times out, and leaves a credit under each of its ACK keys where it was
  not robbed, exactly when nothing was answered to it under any of its keys (`TimedOutExactly`,
  `CreditsExactly`); robbed requests <= credits spent <= credits booked. One request at a time on
  a key: at most two timeouts for each answer lost or late (`LossNeverChains`). Serial writes under one key,
  whatever happens under others: whoever is answered is answered by its own answer *if and only if* the
  late answer of a robbed request never came while another request was waiting (`OwnAnswersExactly`); it
  never does where no two requests in a row are answered late (`OwnAnswers`), and `TwoLateInARow` is an
  input where it does.
* **Epochs.** Exactly which epochs are published, for every stream of contiguous blocks and over any
  number of reconnects (`PublishedAcrossResets`). What the comments of `_infer_epoch_end` promise - of a run
  without NAV-EOE only the first EOE_MISSED_LIMIT - 1 blocks are lost - is kept at every point of a stream
  *if and only if* every block is regular (`AsPromisedExactly`): of the first two blocks of such a run,
  where the stream carries NAV-EOE, neither has the iTOW of the last NAV-EOE; the run does not follow a
  NAV-EOE that came alone with another block still open; and no NAV-EOE comes alone right after a block
  without one that is due. Where the promise fails: `RecurringItowLosesMore` (joined logs) and
  `LoneEoeShiftsTheCount`.
* **Raw log.** Nothing lost, doubled or reordered; a finished sidecar describes the whole file, and its
  message counts do so exactly when those it resumed from did (`MissingSidecarForgets` is the input where
  they did not); the ticker finalises an hour exactly when the last reading, and the time since, has left
  it (`Tick`); no hour that the ticker finalised is opened again before a different reading.
* **Caster to client.** What the driver is given is what the write loop sent, in order, for both protocol
  versions and wherever the connection breaks; what is offered is sent, queued, or dropped as the oldest.
* **Replay.** All pieces together are the frames of the whole file; every piece fits and holds one epoch.
* **Configuration.** Exactly the refused keys, in order; everything else set; at most 2 k log2 n writes;
  an item refused goes unreported only if the receiver was heard to hold its value (`ApplyCore`).
  Writing only what differs has the outcome of writing everything *if and only if* no key's last accepted
  value already holds after another accepted value of the same key. That is a boundary on arbitrary lists
  (`TwiceNamedIsUnsettled`): the profiles (`ubx_config.py` lines 95-145) name each key once.
* **Time marks.** Over any number of reconnects and whatever updates are lost: a mark shown is taken if
  and only if it is newer than the last known on its channel, so at most once and in order on each
  channel. An update lost is therefore not made up for once a later mark of its channel was taken
  (`LostUpdateIsSkipped`); across channels the order is kept *if and only if* no snapshot shows a mark that
  was overtaken. When no update is lost and every snapshot reaches back, nothing is missed.
* **Export.** With names as an export has them, the whole export is published or the directory is as it
  was, wherever the failure (`Publish`). `_publish` on arbitrary names has a boundary: a failure restores
  the directory if and only if no set-aside copy was itself moved out, which takes a name beginning with
  `.old-`; no export has one. The manifest's size settles by the fourth round, at the least right value.
* **Transactions.** A transaction left normally makes what its task executed in it take effect, one left by
  an exception nothing (`LeaveDecides`). Over every interleaving, units are isolated *if and only if*, while
  the unit of a task cancelled with its BEGIN in flight is open, nothing is executed but plain statements of
  that very task; so always when no BEGIN is torn. `TornBeginIsNotIsolated` is a run where it fails.

## Model

| member | source | states |
|---|---|---|
| Crc.BuildTable | src/mtrtk/core/crc.py:15-24 | the table holds, for every byte, the remainder of that byte times x^24 |
| Crc.Crc24q | src/mtrtk/core/crc.py:30-35 | the table loop computes the remainder of the message times x^24 modulo the generator, for every message |
| Crc.RemainderLinear | src/mtrtk/core/crc.py:15-35 | the remainder of a sum is the sum of the remainders |
| Crc.PolynomialIs864CFB | src/mtrtk/core/crc.py:15-35 | the generator is x^24 + 0x864CFB and the register starts at zero |
| Crc.CodewordRemainder | src/mtrtk/core/crc.py:30-35 | message and three bytes leave remainder zero exactly when the three bytes are the CRC |
| Crc.BurstDetected | src/mtrtk/core/crc.py:30-35 | strings that differ by one burst of at most 24 bits have different remainders |
| Crc.UbxChecksum | src/mtrtk/core/crc.py:6-12 | the loop is the closed form: the sum of b_i and the sum of (n-i) b_i, modulo 256 |
| Crc.FletcherDetectsChange | src/mtrtk/core/crc.py:6-12 | changing one byte changes the checksum |
| Crc.FletcherDetectsSwap | src/mtrtk/core/crc.py:6-12 | swapping two unequal neighbours changes the checksum |
| Crc.NmeaChecksum | src/mtrtk/core/crc.py:38-43 | the loop is the XOR of all bytes of the body |
| FrameProperties.HeadFindsFrames | src/mtrtk/core/frames.py:190-241 | the verdict on a candidate is Complete with a length exactly when that many bytes are a valid frame of that protocol |
| Encodings.SentIsFrame | src/mtrtk/core/frames.py:190-241 | a UBX frame with its length low byte first and at most 8192 bytes of payload, an RTCM 3 frame with ten bits of length and the CRC high byte first, and a sentence with its XOR in two digits are valid frames |
| Encodings.NavEoeOnTheWire | src/mtrtk/core/frames.py:190-207 | the twelve bytes of a NAV-EOE are what the encoder builds, and a valid frame |
| Encodings.SentIsFound | src/mtrtk/core/frames.py:190-241 | the verdict on such a frame is exactly that frame, whatever follows |
| Encodings.PartIsAwaited | src/mtrtk/core/frames.py:190-241 | a proper part of one is waited for, a sentence only up to the give-up threshold |
| Encodings.TooLongRejected | src/mtrtk/core/frames.py:198-200 | a UBX header that announces more than 8192 bytes is rejected at once |
| Encodings.SentReadBack | src/mtrtk/core/frames.py:148-176 | any mix of such frames comes out as sent, with no garbage, no error and nothing held, and then what follows is parsed |
| Encodings.SentInPieces | src/mtrtk/core/frames.py:148-176 | the same for any pieces, where no sentence is longer than 256 bytes |
| FrameProperties.ErrorsExactly | src/mtrtk/core/frames.py:190-241 | a checksum error is counted exactly where something starts that has the shape of a frame and not its checksum |
| FrameProperties.ParseIsGreedy | src/mtrtk/core/frames.py:148-176 | the frames that come out are the leftmost-greedy split of the stream as far as it got |
| FrameProperties.Accounting | src/mtrtk/core/frames.py:148-188 | bytes fed = frame bytes + garbage + bytes held; the frames occur in the stream in order and disjoint |
| FrameProperties.HeldBack | src/mtrtk/core/frames.py:148-176 | what is held back is at most 8199 bytes, and parsing it again changes nothing |
| FrameProperties.UbxChangeRejected | src/mtrtk/core/frames.py:190-207 | a valid UBX frame with any byte outside sync and length changed is rejected as a checksum error |
| FrameProperties.UbxSwapRejected | src/mtrtk/core/frames.py:190-207 | so is one with two unequal neighbours of class/id or payload swapped |
| FrameProperties.RtcmBurstRejected | src/mtrtk/core/frames.py:209-224 | a valid RTCM 3 frame altered behind its header by a burst of at most 24 bits is rejected |
| FrameProperties.LateSentenceIsFrame | src/mtrtk/core/frames.py:226-241 | the 257-byte sentence of the witness is a valid frame |
| FrameProperties.ChunkingWitness | src/mtrtk/core/frames.py:226-232 | that sentence comes out when fed whole and is lost when fed as 256 bytes and one; with a wait of 258 it comes out |
| Chunking.HeadOfPrefix | src/mtrtk/core/frames.py:190-241 | a verdict on a prefix is final unless the prefix clips a late sentence |
| Chunking.SafeAgrees | src/mtrtk/core/frames.py:148-176 | two calls of feed give what one call gives, at every cut, when no late sentence is exposed |
| Chunking.UnsafeSplit | src/mtrtk/core/frames.py:226-232 | when a late sentence is exposed, some cut gives a different result |
| Chunking.SafeChunksAgree | src/mtrtk/core/frames.py:148-176 | any number of calls give what one call gives, on a safe stream |
| Chunking.ChunkingExact | src/mtrtk/core/frames.py:148-241 | independence of chunking holds for a stream if and only if no late sentence is exposed in it |
| Chunking.WiderWaitIsSafe | src/mtrtk/core/frames.py:226-232 | with a give-up threshold of 258 every stream is safe |
| Chunking.NoLateCrlfIsSafe | src/mtrtk/core/frames.py:226-232 | no `$` whose first CRLF is at offset 255 or 256: the stream is safe with the threshold of the code |
| FramerModule.Framer.NextSync | src/mtrtk/core/frames.py:178-182 | the distance to the next sync byte, or to the end |
| FramerModule.Framer.TryUbx | src/mtrtk/core/frames.py:190-207 | waits, rejects or cuts off a frame as the verdict says, and counts a checksum error exactly when it is one |
| FramerModule.Framer.TryRtcm | src/mtrtk/core/frames.py:209-224 | the same for RTCM 3, computing the CRC by table |
| FramerModule.Framer.TryNmea | src/mtrtk/core/frames.py:226-241 | the same for NMEA |
| FramerModule.Framer.Drain | src/mtrtk/core/frames.py:148-176 | the loop over the buffer is the parse: frames, garbage, checksum errors and leftover |
| FramerModule.Framer.Feed | src/mtrtk/core/frames.py:148-176 | one call is the parse of leftover and chunk; per-protocol counters tell what came out; the cap drops the oldest bytes and only when exceeded |
| FramerModule.FeedAccounted | src/mtrtk/core/frames.py:148-188 | one call keeps the account: bytes fed = emitted frame bytes + garbage + buffered bytes, cap or no cap, the frames in order and disjoint in the stream |
| FramerModule.WholeStream | src/mtrtk/core/frames.py:148-176 | an uncapped framer's whole history is the parse of the concatenation of all chunks, on a safe stream |
| Link.UbxLink.Deliver | src/mtrtk/core/link.py:137-162 | a live credit swallows the answer and robs the head of the queue; otherwise the head is resolved |
| Link.UbxLink.Purge | src/mtrtk/core/link.py:164-175 | lapsed credits go, live ones stay |
| Link.UbxLink.Register | src/mtrtk/core/link.py:189-201 | one waiter per acceptable answer, at the end of its queue |
| Link.UbxLink.Retire | src/mtrtk/core/link.py:215-250 | an unanswered request leaves its queues, and a credit per ACK key unless it was robbed there |
| LinkRuns.RunBalanced | src/mtrtk/core/link.py:137-250 | every run keeps the queues in order and the books of every ACK key balanced |
| LinkRuns.RobberyIsPaidFor | src/mtrtk/core/link.py:64-107 | robbed requests <= credits spent <= credits booked = requests retired unanswered and unrobbed |
| LinkRuns.LossNeverChains | src/mtrtk/core/link.py:90-107 | one request at a time on a key: timeouts are at most twice the answers lost or late |
| LinkRuns.TimedOutExactly | src/mtrtk/core/link.py:215-228 | a retired request has timed out if and only if no answer was given to it under any of its keys, however many |
| LinkRuns.CreditsExactly | src/mtrtk/core/link.py:229-250 | retiring adds exactly one credit under each ACK key of such a request where it was not robbed, and changes no other |
| OwnAnswer.OwnAnswersExactly | src/mtrtk/core/link.py:137-250 | orderly serial writes under a key, among any requests and answers under others: every resolved request holds its own answer if and only if no robbed request's late answer came while another request waited |
| OwnAnswer.ElsewhereLeaves | src/mtrtk/core/link.py:137-250 | what happens under other keys leaves a key's queue, credits, answers and requests alone |
| OwnAnswer.HereFollows | src/mtrtk/core/link.py:137-250 | what happens under a key depends on nothing under other keys |
| OwnAnswer.MisleadsTheNext | src/mtrtk/core/link.py:137-162 | when it comes so, the next request of the key is resolved with it |
| OwnAnswer.NoCreditForRobbed | src/mtrtk/core/link.py:64-75 | a robbed request left no credit, and no other is live when its late answer comes |
| OwnAnswer.OwnAnswers | src/mtrtk/core/link.py:137-250 | where no two requests in a row are answered late that never happens, every answer is its owner's, and there is at most one credit |
| OwnAnswer.CreditForLate | src/mtrtk/core/link.py:154-175 | a late answer is taken by the credit that its request left |
| OwnAnswer.TwoLateInARow | src/mtrtk/core/link.py:215-250 | two late answers in a row give a later request another's answer |
| Epochs.StateStore.Apply | src/mtrtk/core/statestore.py:135-159 | one message changes the state as the step function of the theorems says |
| Epochs.StateStore.InferEpochEnd | src/mtrtk/core/statestore.py:423-471 | the change of state on an epoch's NAV message, in both regimes and when switching |
| Epochs.StateStore.NavEoe | src/mtrtk/core/statestore.py:411-421 | NAV-EOE publishes its epoch and, when first seen, drops what was inferred so far |
| Epochs.StateStore.EndOfStream | src/mtrtk/core/statestore.py:161-178 | the open epoch is published at the end only where epochs are inferred |
| Epochs.NextBlockOpens | src/mtrtk/core/statestore.py:423-471 | the first message of the next block settles whether the one before is published, in either regime |
| Epochs.StreamIsFollowed | src/mtrtk/core/statestore.py:411-483 | the state after any contiguous blocks that come upon a fresh state, among them blocks of which only the NAV-EOE came and iTOWs that recur |
| Epochs.PublishedAcrossResets | src/mtrtk/core/statestore.py:161-178 | over any number of reconnects what is published is exactly the closed blocks, once and in order; a block open at a reset is lost, the regime and the iTOW of the last NAV-EOE carry over |
| Epochs.FirstAfterReset | src/mtrtk/core/statestore.py:171-178 | the first block after a reset counts with its NAV-EOE, or where epochs are inferred and it opened with NAV-PVT |
| Epochs.PublishedExactly | src/mtrtk/core/statestore.py:411-483 | the same of an uninterrupted stream; at its end the open block too, unless the stream is taken to carry NAV-EOE |
| Epochs.AsPromisedExactly | src/mtrtk/core/statestore.py:439-449 | at every point of a stream exactly the blocks that are due - with NAV-EOE all, without it all but the first EOE_MISSED_LIMIT - 1 of a run and a first block not opened by NAV-PVT - are published if and only if every block is regular |
| Epochs.PromiseKept | src/mtrtk/core/statestore.py:161-178 | on such a stream the real run has published what is due, but for a block still open, and so at its end |
| Epochs.PlainIsRegular | src/mtrtk/core/statestore.py:439-449 | such is a stream where no NAV-EOE comes alone and no block without one has the iTOW of the last NAV-EOE |
| Epochs.RecurringItowLosesMore | src/mtrtk/core/statestore.py:444-445 | 10 with NAV-EOE, then 9, 10, 11, 12, 13 without: the count begins anew at the second 10, and 9, 10 and 11 are lost |
| Epochs.LoneEoeShiftsTheCount | src/mtrtk/core/statestore.py:444-449 | after 9 and 10 with NAV-EOE and the NAV-EOE of 11 alone, 12 is published though it is the first to miss its own |
| RawLog.RawLogWriter.Handle | src/mtrtk/rawlog/writer.py:259-288 | an accepted frame is written after all that waited to the hour of the receiver's time, or waits; the clock is the last reading with the monotonic time of its frame, or the host's; only a different reading lifts the guard, and it does |
| RawLog.RawLogWriter.NoteUtc | src/mtrtk/rawlog/writer.py:290-311 | only a reading other than the frozen one clears the guard |
| RawLog.RawLogWriter.BufferPending | src/mtrtk/rawlog/writer.py:322-333 | frames wait without a time; over the cap the host clock names the file and all of them are written |
| RawLog.RawLogWriter.Rotate | src/mtrtk/rawlog/writer.py:335-355 | the old hour is finalised, the new one opened or resumed, and everything pending written to it first |
| RawLog.RawLogWriter.Write | src/mtrtk/rawlog/writer.py:129-133 | file, hash, size and counts grow together |
| RawLog.RawLogWriter.CloseCurrent | src/mtrtk/rawlog/writer.py:158-172 | the sidecar on disk is complete, ends at the last reading and describes the file |
| RawLog.RawLogWriter.Tick | src/mtrtk/rawlog/writer.py:363-403 | the open hour is finalised if and only if the reading last told, and the time since, has left it; its sidecar ends with the clock as it was; else the sidecar is refreshed when due |
| RawLog.OpenWith | src/mtrtk/rawlog/writer.py:92-141 | an opened file starts from what it holds and from what its sidecar said, plus the whole pending buffer |
| RawLog.Opened | src/mtrtk/rawlog/writer.py:92-127 | an hour opened again is described by what its sidecar says |
| RawLog.EventAdded | src/mtrtk/rawlog/writer.py:270-282 | opening or finalising an hour later than the closed one, or lifting the guard, keeps the history free of reopened hours |
| RawLog.WholeFile | src/mtrtk/rawlog/writer.py:92-172 | a finished file is what was there and what was written since; size and digest are the whole file's, its earlier marks are kept, and the message counts are the whole file's if and only if the resumed ones were right |
| RawLog.MissingSidecarForgets | src/mtrtk/rawlog/writer.py:105-117 | a file of one message resumed without its sidecar, and one message written: two messages, counted as one |
| RawLog.NeverReopened | src/mtrtk/rawlog/writer.py:270-311 | between finalising an hour and opening it again there is a different reading |
| Wire.ChunkReadBack | src/mtrtk/rover/ntrip_client.py:121-140 | decoding undoes the caster's chunk, whatever follows |
| Wire.AnyChunk | src/mtrtk/rover/ntrip_client.py:121-140 | a chunk with its size in hexadecimal of either case, with or without an extension, is decoded to its data, whatever follows |
| Wire.AnyEnd | src/mtrtk/rover/ntrip_client.py:121-140 | a size of zero, however it is written, ends the stream |
| Wire.OnlyChunks | src/mtrtk/rover/ntrip_client.py:121-140 | nothing is taken for data but what a size line announces and CRLF follows |
| PyInt.DigitReadBack | src/mtrtk/rover/ntrip_client.py:129 | a hexadecimal digit reads the same in both cases |
| PyInt.LiteralRead | src/mtrtk/rover/ntrip_client.py:129 | `int(text, 16)` reads every literal - white space, sign, `0x`, digits perhaps grouped by underscores - as the number it spells |
| PyInt.LiteralFound | src/mtrtk/core/frames.py:226-241 | and nothing else: a text that is read is such a literal |
| Wire.TerminatorReadBack | src/mtrtk/base/ntrip_caster.py:173-181 | the empty frame is the terminating chunk |
| Wire.CutChunk | src/mtrtk/rover/ntrip_client.py:121-140 | a chunk cut short gives no data |
| Ntrip.Client.Offer | src/mtrtk/base/ntrip_caster.py:296-304 | a full queue loses exactly its oldest frame and counts it; until a stop, offered = sent + dropped oldest + queued |
| Ntrip.Client.EndStream | src/mtrtk/base/ntrip_caster.py:306-311 | the first reason stays, and the queue ends with the empty frame, which wakes the loop |
| Ntrip.Client.WriteOne | src/mtrtk/base/ntrip_caster.py:539-567 | one round sends the oldest queued frame, or closes the body when a stop was asked for |
| Ntrip.Client.FinishStream | src/mtrtk/base/ntrip_caster.py:569-582 | the queue is emptied and the body ended |
| Ntrip.Reader.ReadLine | src/mtrtk/rover/ntrip_client.py:114-118 | up to and with the first line feed, or to the end; a line beyond the limit is an error |
| Ntrip.NtripClient.DecodeChunked | src/mtrtk/rover/ntrip_client.py:121-140 | size line, data and CRLF read one after the other are one chunk of the decoding function, its end or its failure |
| Ntrip.NtripClient.Take | src/mtrtk/rover/ntrip_client.py:358-374 | the RTCM 3 frames that a piece completes are injected in order and counted; checksum errors are counted |
| Ntrip.NtripClient.Stream | src/mtrtk/rover/ntrip_client.py:351-374 | a session injects the RTCM 3 frames of everything received, for any segmentation |
| Ntrip.ParseRtcmStream | src/mtrtk/core/frames.py:148-176 | of a stream of valid frames, cut anywhere, the whole ones come out, and no sentence in it is exposed |
| Ntrip.WholeChunksFit | src/mtrtk/base/ntrip_caster.py:173-181 | the number of whole chunks is that of the frames whose encoding fits, and one more does not |
| Ntrip.PayloadsReadBack | src/mtrtk/rover/ntrip_client.py:121-140 | of a chunked body, cut anywhere, exactly the whole chunks are read |
| Ntrip.RawEndToEnd | src/mtrtk/rover/ntrip_client.py:351-374 | version 1: the frames injected are those sent that came through whole, in order, after any preface without a sync byte |
| Ntrip.ChunkedEndToEnd | src/mtrtk/base/ntrip_caster.py:173-181 | version 2: the frames injected are exactly those whose chunks came through whole, in order; all of them when the body came through |
| Replay.FileReplaySource.NextFrame | src/mtrtk/core/source.py:264-285 | the next frame of the file, or none exactly when all have been replayed |
| Replay.FileReplaySource.PushBack | src/mtrtk/core/source.py:300-304 | the frame that did not fit is neither lost nor repeated |
| Replay.FileReplaySource.ReadOn | src/mtrtk/core/source.py:287-333 | the next piece by its definition, empty exactly at the end of the pass |
| Replay.FileReplaySource.Read | src/mtrtk/core/source.py:287-333 | the same with looping; when a read is empty, all results so far are the content of every frame of the file |
| Replay.FileReplaySource.constructor | src/mtrtk/core/source.py:235-262 | the first marker is NAV-EOE exactly when the file's head holds one |
| Replay.HasNavEoe | src/mtrtk/core/source.py:373-398 | the search in pieces finds a checksum-valid NAV-EOE if and only if one lies in the head |
| Replay.NavEoeIsSent | src/mtrtk/core/source.py:373-398 | what is searched for is exactly a NAV-EOE frame as a receiver sends it |
| Replay.MarkersAsSent | src/mtrtk/core/source.py:306-333 | of UBX frames as sent, class 1 id 0x61 is the one marker and class 1 id 7 the other |
| Replay.RecordingReplayed | src/mtrtk/core/source.py:264-285 | a recording of frames as sent replays as just those |
| Replay.AllFramesAreGreedy | src/mtrtk/core/source.py:264-285 | on a safe file the frames replayed are its leftmost-greedy split |
| Replay.PieceIsUnique | src/mtrtk/core/source.py:287-333 | the definition of a piece leaves one way to cut it |
| Replay.PieceIsOneEpoch | src/mtrtk/core/source.py:287-333 | a piece is at most 256 KiB, holds a NAV-EOE only as its last frame, and a second NAV-PVT only where the stream stops carrying NAV-EOE |
| Config.Bisect | src/mtrtk/core/receiver.py:686-694 | exactly the refused keys in order, all else applied, within 2 k ceil(log2 n) writes |
| Config.ApplyWithBisect | src/mtrtk/core/receiver.py:679-684 | the same for any list: a write per chunk of 64 and at most twelve more per refused key |
| Config.HalvingsIsLog | src/mtrtk/core/receiver.py:686-694 | the halvings counted in the bound are the logarithm rounded up |
| Config.Untouched | src/mtrtk/core/receiver.py:679-694 | a key that no accepted item names keeps its value |
| Config.LastGoodIsSet | src/mtrtk/core/receiver.py:679-694 | a key that accepted items name has the value of the last of them |
| Config.Readback | src/mtrtk/core/receiver.py:644-677 | what is read is all that was answered, and true; a key not read was refused, or is reported unheard exactly when the receiver knows it |
| Config.SkippingExactly | src/mtrtk/core/receiver.py:503-515 | leaving out items that already hold changes nothing in the outcome if and only if no key's last accepted item asks for what was read after one that did not |
| Config.TwiceNamedIsUnsettled | src/mtrtk/core/receiver.py:503-515 | a key named twice, first with another value and then with the one it holds, keeps the other |
| Config.DistinctIsSettled | src/mtrtk/core/receiver.py:503-515 | which holds where no key is named twice |
| Config.ApplyCore | src/mtrtk/core/receiver.py:503-515 | the outcome is that of writing all items, under that condition; every refused item is reported, in order, unless its value was heard to be held; nothing is written when all were heard and agree |
| Marks.MarkAfterIsLater | ros2/mtrtk_bridge/mtrtk_bridge/convert.py:262-264 | counts less than half the circle apart compare as the numbers they stand for |
| Marks.NewsExactly | ros2/mtrtk_bridge/mtrtk_bridge/convert.py:355-361 | when a later mark is taken for news, exactly, however many were missed |
| Marks.EpochAccumulator.TakeMark | ros2/mtrtk_bridge/mtrtk_bridge/convert.py:340-353 | a full queue loses exactly its oldest mark and counts it |
| Marks.EpochAccumulator.RecoverMarks | ros2/mtrtk_bridge/mtrtk_bridge/convert.py:363-374 | a snapshot's rising marks are noted as history or taken as news, in order |
| Marks.FallingIgnored | ros2/mtrtk_bridge/mtrtk_bridge/convert.py:363-365 | a report of a falling edge alone makes no difference to a snapshot, wherever it stands |
| Marks.RisingCount | ros2/mtrtk_bridge/mtrtk_bridge/convert.py:363-365 | of rising edges every report counts, in order |
| Marks.EpochAccumulator.IngestTimeMark | ros2/mtrtk_bridge/mtrtk_bridge/convert.py:329-338 | an update that repeats the snapshot is skipped; the first that does not ends the overlap |
| Marks.EpochAccumulator.PopTimeMarks | ros2/mtrtk_bridge/mtrtk_bridge/convert.py:376-379 | hands over what is queued and empties the queue |
| Marks.NewsIsNewer | ros2/mtrtk_bridge/mtrtk_bridge/convert.py:355-361 | within half the circle, what counts and times call news is what was raised later on the channel |
| Marks.LaterInTimeIsNews | ros2/mtrtk_bridge/mtrtk_bridge/convert.py:355-361 | whatever its count, a mark later in time than the last known is news: so after a restart of the daemon |
| Marks.SessionTakes | ros2/mtrtk_bridge/mtrtk_bridge/convert.py:329-374 | a connection, whatever updates it loses, takes what the reference takes |
| Marks.SessionExactly | ros2/mtrtk_bridge/mtrtk_bridge/convert.py:329-374 | that is: of the snapshot the marks newer than the last known on their channel - none of the first snapshot - and every update beyond the snapshot |
| Marks.ShownIsTaken | ros2/mtrtk_bridge/mtrtk_bridge/convert.py:267-282 | over any number of connections a mark shown is taken if and only if it is newer than the last known on its channel |
| Marks.EachMarkOnce | ros2/mtrtk_bridge/mtrtk_bridge/convert.py:267-282 | each mark is taken at most once, and on each channel in the order raised |
| Marks.OrderExactly | ros2/mtrtk_bridge/mtrtk_bridge/convert.py:363-374 | across channels the order is kept if and only if no snapshot shows a mark that was overtaken |
| Marks.LostUpdateIsSkipped | ros2/mtrtk_bridge/mtrtk_bridge/convert.py:363-374 | with 5 lost and 6 taken, a snapshot that shows both adds nothing |
| Marks.OvertakenMarkComesLate | ros2/mtrtk_bridge/mtrtk_bridge/convert.py:363-374 | with 5 on a channel of its own it is taken, after 6 |
| Marks.NoneMissed | ros2/mtrtk_bridge/mtrtk_bridge/convert.py:267-282 | when no update is lost and each snapshot reaches back to what was known, all marks since the first snapshot are taken |
| Export.StagedFilesSurvive | src/mtrtk/rinex/export.py:482-489 | setting files aside leaves every staged file intact if and only if no name is another's set-aside name |
| Export.PublishedFiles | src/mtrtk/rinex/export.py:469-489 | a published export holds every staged file and leaves all others alone |
| Export.Directories.Publish | src/mtrtk/rinex/export.py:469-496 | with names that do not begin with `.old-`: every staged file published and all others untouched, or the directory as it was, for every failure point; on any names, a failure restores it if and only if no set-aside copy was moved out |
| Export.RolledBack | src/mtrtk/rinex/export.py:490-496 | the undo restores the directory exactly under that condition, wherever the failure was |
| Export.PlainUndoRestores | src/mtrtk/rinex/export.py:490-496 | with such names the undo always restores the directory |
| Export.PlainNamesNeverCollide | src/mtrtk/rinex/export.py:482-489 | such names are nobody's set-aside names |
| Export.ExportNamesArePlain | src/mtrtk/rinex/naming.py:57-61 | names that begin with a letter or digit of the station code, and `manifest.json`, are such names |
| Export.CollisionLosesAFile | src/mtrtk/rinex/export.py:466-496 | the boundary on arbitrary names: with `a` and `.old-a` in one call a failure can lose the earlier `a` |
| Export.ManifestSize | src/mtrtk/rinex/export.py:363-379 | the size settles within four of the ten rounds, for every text, at the least size that is right |
| Database.StepKeeps | src/mtrtk/store/db.py:141-208 | every step keeps lock, owner and the connection's open unit in agreement |
| Database.StepExactly | src/mtrtk/store/db.py:141-208 | a step that executes something else while an unowned unit is open ends isolation, every other step keeps it |
| Database.IsolatedExactly | src/mtrtk/store/db.py:141-208 | in every interleaving units are isolated if and only if every step is harmless in that sense |
| Database.AlwaysIsolated | src/mtrtk/store/db.py:141-208 | so in every interleaving without a torn BEGIN |
| Database.LeaveDecides | src/mtrtk/store/db.py:141-163 | in every interleaving, leaving a transaction normally makes what its task executed inside take effect, in order, and leaving it by an exception nothing |
| Database.PlainCallDecides | src/mtrtk/store/db.py:165-208 | outside a transaction a statement takes effect at once and a commit ends nobody's unit; what each does when an unowned unit is open |
| Database.NestedCallsDoNothing | src/mtrtk/store/db.py:141-208 | inside its own transaction a task's commit and a second transaction change nothing |
| Database.OneTransaction | src/mtrtk/store/db.py:141-163 | one task's transaction from the start, left either way |
| Database.UnitIsAtomic | src/mtrtk/store/db.py:141-163 | a unit takes effect whole when committed and not at all when rolled back |
| Database.PlainStatementPersists | src/mtrtk/store/db.py:178-180 | a statement outside a transaction is never undone by another task |
| Database.TornBeginIsNotIsolated | src/mtrtk/store/db.py:141-163 | a task cancelled with its BEGIN in flight lets the next task's statement fall into an unowned unit |

## Left out

- Frame time stamps, namers and parsers (pyubx2, pyrtcm, pynmeagps): messages arrive typed, with iTOW or UTC as a number.
- The SBG and VectorNav drivers and their own framers.
- `UbxLink.stop`, the write to the source, and that a data answer is preferred over its ACK: a request is its keys, its timeout and its retirement.
- The robbed flag and the resolved future are kept by request and key, not as fields of a waiter object; nothing else refers to a waiter.
- Epochs: a block is the NAV messages of one iTOW and then its NAV-EOE; messages of an epoch after its own NAV-EOE, or between those of another, are not.
- Two-key requests (`poll`, `valget`) under the key of the own-answer theorem, which has them only under other keys: a trailing ACK can reach the next request by design. They are in the theorems of `LinkRuns`.
- The raw logger's file buffering, fsync, events and queue pressure; I/O failures; `set_keep`, firmware and site; `recover_incomplete`. An unreadable sidecar is an absent one.
- The open raw log is a value that the writer holds: only the writer refers to it.
- The clamp of a leap second and NAV-PVT's validity flags: `Handle` is given the reading, or none.
- The NTRIP request and response heads, authorisation, backoff, GGA, timeouts, and the fan-out over clients with its cached station messages; the slow-client measure is an input of `WriteOne`.
- Ntrip.NtripClient.Stream: a session's failure is not told from its end; the source reports it to the caller.
- Replay at host pace, the pacing sleeps and the iTOW they use, closing the source.
- CFG-VALSET and CFG-VALGET timeouts, layers, optional features and the verification's retries: the receiver answers, as a whole list at a time.
- In `Marks`, an update that is older than the first mark of its own connection's snapshot: the hub would have to be more marks behind than a snapshot shows (100).
- A daemon restart in `Marks`, where counts begin again and only the time tells news; that a bridge stays away for 2^15 marks of a channel or more, for which `NewsExactly` says what is taken for news; updates of other topics, attitude and position.
- Export: which files are made, the staging directory's life, and undo steps that fail themselves.
- SQLite beyond its transaction semantics; that a COMMIT or ROLLBACK fails, or is cancelled in flight; the order in which waiting tasks get the lock.
