# A verified model of sftpx's chunk transfer

sftpx uploads a file as checksummed chunks over one QUIC stream and can resume an upload that was cut off. This
project models everything that decides whether the file on the server ends up equal to the file on the client, and
proves properties of that model. The network, the disk and the libraries are parameters.

`dafny verify dfyconfig.toml` checks all of it.

## How it is laid out

Code that changes state in place is modelled by classes and loops. Each method is proved against a function on values,
and what the system promises is proved about those functions, over whole runs where the code keeps state.

| files | what they hold |
|---|---|
| `Bytes`, `Collections`, `Sorting`, `Text` | 32-bit encodings, id ranges, filters and missing lists, sorting by a key, decimal and hexadecimal text, lines, fields and paths |
| `Chunking`, `Packets`, `Chunkers` | chunk arithmetic, the packet builder and parser, the sequential chunker, the worker pipeline |
| `Framing`, `Messages` | length-prefixed frames and their incremental parsers |
| `Marks`, `ChunkBitmap` | the chunk bitmap as a set, and the packed form that refines it, with its file format |
| `Tracker`, `TrackerRuns`, `MissingChunkTracker` | the missing-chunk tracker |
| `Queue`, `QueueRuns`, `RetransmissionQueue` | the retransmission queue |
| `Receiver`, `ReceiverRuns`, `Staleness`, `FileReceiver` | assembly of the file, the receiver's use of the tracker, and where the two disagree |
| `Server`, `ServerRuns`, `UploadSession` | the server's receive loop and its bitmap |
| `Resume`, `ChunkSend`, `UploadClient` | the resume agreement, the client's send loop over a transport that takes frames in portions, the saved bitmap and its mirror in memory |
| `Transfer`, `SampleCodec`, `SampleJobs`, `SampleRuns` | the whole upload, fresh and resumed, a concrete codec that meets its hypotheses, and short runs that go wrong |
| `Manifest`, `ManifestSend` | building, checking and sending a manifest, and the locations recorded from it |
| `Index`, `ChunkHashIndex` | the chunk index and its text file |
| `Table`, `ChunkTable` | the chunk metadata table and its integrity check |

Conventions:

- The message encoding, the compressor and the hash are one `Codec` value. What is used of it is `Lawful`: decoding
  undoes encoding and decompressing undoes compressing. Nothing is assumed of the hash; where damage matters, the
  hypothesis is that this damage changes this checksum.
- Time is a number of milliseconds passed in, fixed for one call as in the code. An interval that would be negative is
  zero.
- The order in which a hash set or hash map is visited, and the order in which workers finish, is left open.
- What a read from the operating system returns, and how the stream is cut into reads, is an arbitrary choice.

## What the proofs found

The following are properties that the code has only under a condition. The model keeps the code's behaviour, states the
exact condition, and where a short input shows the failure, gives it.

- `dequeue_batch` never returns if fewer entries are ready than it may take and one queued entry is not ready:
  `EndsIff`, `RetryTooSoonHangs`.
- The 30-second sweep in `dequeue_batch` forgets chunks that were never received: `StaysKnownIff`,
  `SweepLosesChunkIff`.
- A damaged copy of a chunk that was already accepted makes the tracker believe it missing, and no later copy corrects
  that; the chunk is finally reported as failed. Enabling retransmission after the last chunk has the same effect:
  `RunInStepIff`, `StaleForever`, `StaleIsReportedFailed`, `DamagedCopyEndsAsFailed`, `LateSwitchOnMisleads`.
- The bitmap's completeness test compares counts. It is right whatever arrives after EOF exactly when no earlier chunk
  had an id above the EOF chunk's: `ArrivalsExactIff`, `ChunkMarks.ExactForeverIff`, `CountedButNotComplete`. The
  receiver's test has the same form, but the receiver goes on accepting ids beyond the end:
  `ReceiverRuns.ExactForeverIff`, `CountedButIncomplete`.
- The server indexes its bitmap by the number of packets accepted. The bitmap tells the truth throughout exactly when
  every chunk arrives for the first time in order, and otherwise claims chunks that never arrived:
  `BitmapTruthfulIff`, `DuplicateMakesBitmapLie`.
- An incomplete upload is refused only if the client announces the end of the stream; otherwise the server waits for
  ever. The client announces it only with the frame of the last chunk, and only if the transport stops exactly one byte
  short of that frame, because the flag is worked out before each call from the bytes already taken; a transport that
  takes whole frames never carries it: `Transfer.Upload`, `FinishedIff`, `WholeFramesNeverEnd`.
- A resumed upload cannot succeed: the server opens an empty receiver, so as soon as a chunk is skipped by agreement it
  never becomes complete: `Transfer.Resume`. The saved bitmap stays on disk after a success, so uploading the same file
  again skips every chunk and leaves the server waiting: `UploadTwice`.
- A saved bitmap with a known total of zero loads as unknown, and a truncated bitmap file loads without an error:
  `ChunkBitmaps.LoadSavedIff`, `TruncatedFileLoadsInvalid`. If it was cut before the bit of the last chunk, a client
  that resumes panics over it: `TruncatedClaimPanicsIff`.
- The worker pipeline drops a chunk it cannot read and reports nothing. Positions are then no longer chunk ids, and the
  client's saved bitmap records chunks it did not send: `ParallelIsSequential`, `PositionIsIdIff`, `MarkedIsSentIff`,
  `MarkedIsTrueIff`, `DroppedChunkShiftsPositions`. The server never takes such an upload for complete:
  `Transfer.Upload`.
- The client's mirror of the saved bitmap copies a window of a hundred ids. That suffices for a fresh transfer and not
  for a resumed one: `FreshMirror`, `MirrorExactIff`, `ResumedMirrorMisses`.
- A seek to a chunk whose offset exceeds 64 bits may be accepted: `SeekToChunk`, `SeekThatWraps`.
- A frame of 2^32 bytes or more is truncated by its length prefix: `FrameRoundTripIff`.
- Of the two message protocols each reports only one kind of early end of stream: `TruncationReportedIff`.
- An old part file longer than the file leaves its tail behind where it is not cut to size: `FinalizeIff`,
  `FinalizeChecksHash`.
- The chunk index loses a file whose path contains a bar, silently, and cannot hold one with a line feed:
  `IndexModel.LoadSavedIff`, `BarPathIsDropped`.
- The sequential chunk hasher takes a short read for a chunk, and a manifest with fewer hashes than chunks is not
  noticed when the file ends early: `PiecesAreChunksIff`, `BuildManifest`.
- The server records index locations without validating the manifest; they tile the file only for the right number of
  hashes: `LocationsTileIff`.
- `ChunkTable::is_complete` compares counts too. It is right whatever chunks of the file are added exactly when no
  number lies beyond the total: `CompleteRightIff`, `CompleteMissesNoneIff`, `CompleteButMissing`.

## Model

| member | source | states |
|---|---|---|
| `Transfer.Upload` | src/client/transfer.rs:1249-1306 | A fresh upload from the pipeline to the finalized file, for every completion order of the workers, every way the transport takes the frames, every cut of the stream into reads and every old part file: the server ends with exactly the file iff every chunk could be read and packed and the client was not stopped before the last; otherwise it ends with an error iff the client announced the end of the stream, and waits for ever if not; in memory mode the end of a longer old part file stays behind the file |
| `Transfer.Receive` | src/server/transfer.rs:528-650 | The server end of it for the packets of any chunks in any order and multiplicity, with or without the end announced, and whatever its bitmap knows of an earlier transfer: the file iff all chunks are among them, else an error after the announced end and no return without it |
| `Transfer.SendAndReceive` | src/client/transfer.rs:1237-1320 | The upload after any resume negotiation, with the same three outcomes: the file arrives iff every chunk was sent, which needs an empty skip set; the saved bitmap is left as of the last save |
| `Transfer.Resume` | src/client/transfer.rs:792-957 | A resumed upload from negotiation to result, for whatever bytes the saved bitmap file holds, made for this chunk count or another: once a chunk is skipped by agreement the file never arrives, and the server returns at all only if the end was announced; with nothing recorded or a message lost it behaves like a fresh one, and a client that panics over the file leaves the server waiting |
| `Transfer.FinishedIff` | src/client/transfer.rs:1253-1292 | The client announces the end of the stream iff the last chunk survived the pipeline, was not skipped, the loop reached it, and the transport stopped one byte short of its frame |
| `Transfer.UploadTwice` | src/client/transfer.rs:1301-1384 | A file uploaded twice from a client without a saved bitmap: the first upload delivers it, and the second, skipping every chunk, never returns, since the saved bitmap stays on disk |
| `ChunkSend.SendFrame` | src/client/transfer.rs:1390-1455 | Whatever part of the remaining bytes the transport takes at each call, the whole frame is sent once, and the end of the stream is announced iff it was asked for and some call found exactly the last byte left |
| `ChunkSend.StopsShortIff` | src/client/transfer.rs:1408-1418 | Some call finds exactly the last byte left iff what the transport takes at the first calls adds up to one byte less than the frame |
| `ChunkSend.WholeFramesNeverEnd` | src/client/transfer.rs:1411 | A transport that takes each frame whole, or nothing at a call, never leaves exactly one byte, so the end is never announced |
| `ChunkSend.OneShortEnds` | src/client/transfer.rs:1411 | One that stops a byte short of the frame does announce it |
| `Transfer.SentIsBuilt` | src/chunking/parallel.rs:203-230 | What the client sends are packets of the file; all chunks are among them iff none was dropped or skipped and the loop was not stopped early |
| `Transfer.CutKeepsStream` | src/server/transfer.rs:552-556 | Reads of arbitrary sizes carry the same bytes as the stream |
| `ServerModel.EndToEnd` | src/server/transfer.rs:534-650 | After any number of reads the bitmap and the received set agree; if the receiver is complete, finalizing gives the file (with the end of a longer old part file in memory mode); after the last read it is complete |
| `ServerModel.SentDecides` | src/server/transfer.rs:534-650 | For any list of chunks sent, any segmentation and any bitmap to start from: complete only if every chunk was sent, finalizing then gives the file, and after the last read completeness is exact |
| `ServerModel.PacketsInOrder` | src/server/transfer.rs:575-603 | The first n packets in order leave exactly the chunks below n received, in place and in the bitmap |
| `ServerRuns.BitmapTruthfulIff` | src/server/transfer.rs:577-582 | The bitmap, indexed by arrival count, equals the received set after every packet iff the ids carried undamaged are 0, 1, 2, ... in order, and only copies after the last |
| `ServerRuns.BitmapTruthfulNowIff` | src/server/transfer.rs:577-582 | At the end of a packet sequence it does so iff the ids carried are the first ones, as many as there were packets carrying one |
| `ServerRuns.AllCarried` | src/server/transfer.rs:576-601 | Whatever arrives, the server has received exactly the ids carried undamaged and counted every packet that carried one |
| `ServerRuns.DuplicateMakesBitmapLie` | src/server/transfer.rs:577-582 | Concrete failure: two copies of packet 0 make the bitmap claim chunk 1, which never arrived |
| `ServerModel.ArriveAllCounts` | src/server/transfer.rs:577-582 | Whatever packets arrive, the bitmap records the first min(accepted, total) positions on top of what it was told at the start, and never has to grow |
| `ServerModel.ArriveRoom` | src/server/transfer.rs:581-582 | Invariant of one packet: the counter passes the chunk count only after EOF is recorded, so the bitmap keeps its exact size |
| `UploadSessions.UploadSession.OnPacket` | src/server/transfer.rs:576-601 | One packet changes receiver, bitmap and counter as the specification says; an error leaves the counter alone |
| `UploadSessions.UploadSession.TakeTurn` | src/server/transfer.rs:558-603 | One turn of the inner loop: waits, takes a length, or takes a packet |
| `UploadSessions.UploadSession.DrainBuffer` | src/server/transfer.rs:557-604 | The inner loop terminates, hands over exactly the whole frames in order and stops at an incomplete one |
| `UploadSessions.UploadSession.OnRead` | src/server/transfer.rs:552-605 | A read is appended and drained |
| `UploadSessions.UploadSession.ReadUntilComplete` | src/server/transfer.rs:542-639 | The outer loop stops at completion or at the end of the stream, in the state given by the frames of the reads it used |
| `UploadSessions.UploadSession.ReceiveStream` | src/server/transfer.rs:542-650 | The result of finalizing once complete; if the reads end before that, an error when the end of the stream is announced behind them and an endless wait when it is not |
| `SampleJobs.SampleIsSendable` | src/client/transfer.rs:1282-1286 | The hypotheses of both end-to-end theorems hold for every non-empty file below 128 MiB at every chunk size, with the sample codec |
| `SampleCodec.CodecIsLawful` | src/protocol/chunk.rs:81-124 | The laws assumed of the message library and the compressor can be met |
| `Framing.SegmentationIndependence` | src/server/transfer.rs:534-604 | After any reads, the packets handed over and all three loop variables are those of parsing the concatenated bytes at once |
| `Framing.DrainInTwo` | src/server/transfer.rs:557-604 | Draining early and again later is draining once at the end |
| `Framing.ParseAccountsForEveryByte` | src/server/transfer.rs:559-602 | The stream is the frames of the packets handed over, in order, plus one incomplete frame |
| `Framing.FramesParse` | src/client/transfer.rs:1283-1286 | Framed packets parse back to the same packets |
| `Framing.FrameRoundTripIff` | src/client/transfer.rs:1283-1286 | One packet survives framing exactly when its length is below 2^32; the length cast truncates it otherwise |
| `Bytes.U32RoundTrip` | src/server/transfer.rs:564-565 | Big- and little-endian encodings decode to the low 32 bits |
| `Bytes.U32BeInjective` | src/server/transfer.rs:564-565 | Every big-endian word is the encoding of its value |
| `Bytes.U32LeInjective` | src/chunking/bitmap.rs:312-327 | The same for the little-endian header words |
| `Bytes.ByteOrder` | src/server/transfer.rs:564-565 | Length prefixes begin with the highest byte, header words of the bitmap file with the lowest |
| `Messages.ResumeReceiver.ReceiveChunk` | src/protocol/resume.rs:62-87 | The answer is a function of all bytes received so far |
| `Messages.HashCheckReceiver.ReceiveChunk` | src/protocol/hash_check.rs:72-101 | The answer is a function of the bytes since the last message; a message resets the receiver and drops what follows it |
| `Messages.AnswerIgnoresSegmentation` | src/protocol/resume.rs:62-87 | The first decisive answer of either protocol depends only on the concatenated bytes |
| `Messages.MessageArrives` | src/protocol/resume.rs:36-42 | A framed message is received, however it is cut |
| `Messages.TruncationReportedIff` | src/protocol/hash_check.rs:96-98 | At FIN with an incomplete message the resume receivers report an error exactly when the length had arrived, the hash-check receivers exactly when it had not |
| `Packets.BuildThenParse` | src/protocol/chunk.rs:39-124 | Building succeeds exactly when the length matches and compression works, and parsing then restores every field and the data, in both compression branches |
| `Packets.ParseAnswers` | src/protocol/chunk.rs:95-124 | What any message parses to, also one the builder never makes: the low byte of the compression type decides between plain, compressed and refused |
| `Packets.SizesAgreeIff` | src/protocol/chunk.rs:113-163 | A parsed packet passes the size check iff its data is shorter than 2^32 bytes |
| `Packets.NeverExpands` | src/protocol/chunk.rs:57-68 | The payload on the wire is never longer than the data, and is marked compressed exactly when shorter |
| `Chunking.CountBounds` | src/chunking/chunker.rs:59-61 | (n-1)*cs < size <= n*cs for the ceiling count |
| `Chunking.CountUnique` | src/chunking/chunker.rs:59-61 | No other number satisfies those bounds |
| `Chunking.StartOrder` | src/chunking/parallel.rs:121-137 | A chunk exists iff it starts inside the file, neighbours meet, and exactly the last reaches the end |
| `Chunking.ChunksTile` | src/chunking/parallel.rs:121-137 | The chunks joined in order are the file |
| `Chunking.ChunkOfByte` | src/chunking/parallel.rs:121-137 | Every byte lies in chunk i / cs |
| `Chunkers.PacketParses` | src/chunking/parallel.rs:148-170 | The packet of chunk k parses to that chunk, its offset and checksum, with EOF on the last only |
| `Chunkers.PlainChunksBuild` | src/protocol/chunk.rs:48-54 | Without compression and below 4 GiB chunk size every packet builds |
| `Chunkers.FileChunker.NextChunk` | src/chunking/chunker.rs:88-123 | In step: the packet of the current chunk, then one further; none after the last. A failed build leaves the file position ahead of the counters |
| `Chunkers.FileChunker.Reset` | src/chunking/chunker.rs:126-131 | Back to chunk 0, in step |
| `Chunkers.FileChunker.SeekToChunk` | src/chunking/chunker.rs:134-144 | Fails iff the offset, computed modulo 2^64, lies past the end; after a success reading goes on at the wrapped offset, and the chunker is in step iff the offset did not wrap |
| `SampleRuns.SeekThatWraps` | src/chunking/chunker.rs:134-144 | Concrete call: with chunks of 4 GiB a seek to chunk 2^32 of any file succeeds at byte 0, out of step |
| `Chunkers.FileChunker.Collect` | src/chunking/chunker.rs:146-165 | Iterating from chunk k yields exactly the packets k, k+1, ..., last |
| `Chunkers.ProcessMatchesPacket` | src/chunking/parallel.rs:121-170 | A worker builds the packet the sequential chunker builds |
| `Chunkers.ProcessBatch` | src/chunking/parallel.rs:97-118 | Any completion order: exactly the readable and buildable chunks of the batch |
| `Chunkers.SortRestoresOrder` | src/chunking/parallel.rs:213-214 | Sorting any completion order gives the sequential order |
| `Sorting.SortSorts` | src/chunking/parallel.rs:213-214 | The sort by a key without duplicates: the same elements, ascending |
| `Chunkers.RunWorker` | src/chunking/parallel.rs:203-230 | The batches of eight in sequence are the surviving chunks of the whole file in order |
| `Chunkers.ParallelIsSequential` | src/chunking/parallel.rs:97-230 | The pipeline yields the sequential packet sequence exactly when every chunk can be read and built; failures are dropped silently |
| `Chunkers.SurvivorsComplete` | src/chunking/parallel.rs:104-115 | No chunk is lost exactly when every chunk survives |
| `Chunkers.HashesMatchPackets` | src/chunking/parallel.rs:249-283 | Parallel hashing succeeds exactly when all chunks can be read, and lists the checksums the packets carry |
| `ReceiverModel.ReceiveAssembles` | src/client/receiver.rs:164-294 | One packet of any kind keeps the assembly right; rejected and duplicate packets change no bytes, ids or byte count; an accepted one adds exactly its id |
| `ReceiverModel.CompleteIsFile` | src/client/receiver.rs:297-304 | Complete iff every chunk of a non-empty file is there; the content is then the file plus whatever lay beyond its end before |
| `ReceiverModel.ExactNowIff` | src/client/receiver.rs:297-324 | At one moment after EOF the counter test is right iff no id lies beyond the end, or some are missing but not as many as lie beyond |
| `ReceiverRuns.ExactForeverIff` | src/client/receiver.rs:297-324 | The counter test is right after every continuation with chunks of the file, damaged packets, requests and switches iff nothing beyond the end was received |
| `SampleRuns.CountedButIncomplete` | src/client/receiver.rs:297-304 | A run from the start: chunk 5, then the last chunk with id 1; the receiver is complete and finalizes with chunk 0 missing |
| `ReceiverRuns.Assembly` | src/client/receiver.rs:164-304 | Over every run of genuine, damaged, duplicated and unreadable packets: received ids are exactly those delivered, all in place, byte count is their sum, completeness is exact, and the content is then the file iff nothing longer was there |
| `ReceiverRuns.AcceptedForever` | src/client/receiver.rs:205-255 | What was accepted stays accepted and stays in place |
| `ReceiverRuns.FinalizeIff` | src/client/receiver.rs:442-496 | finalize succeeds iff complete; the file equals the one sent iff neither the announced size nor an uncut old part file was longer |
| `ReceiverRuns.FinalizeChecksHash` | src/client/receiver.rs:442-496 | Over every genuine run with the file hash expected: if the hash tells the file from what an old part file adds, success iff complete without such an addition, and the result is the file |
| `ReceiverRuns.RunInside` | src/client/receiver.rs:178-275 | Over every run the tracker keeps its invariant and believes no chunk received that is not |
| `ReceiverRuns.DamageIsReported` | src/client/receiver.rs:135-208 | Over every run the chunks reported by NACK are, in order, those of the packets that arrived while retransmission was on, can be read, have the length they say and not the checksum; and it is on iff it was switched on last |
| `ReceiverRuns.RequestAnswers` | src/client/receiver.rs:333-369 | A request answers zero without retransmission, an error without a tracker, and otherwise sends what it picked in one message and answers how many, or an error if the link is down |
| `ReceiverRuns.RequestCoversMissing` | src/client/receiver.rs:333-369 | A large enough request names exactly the tracker-missing chunks with retries left, so no unreceived such chunk is skipped |
| `ReceiverRuns.RunSeen` | src/client/receiver.rs:164-369 | While retransmission stays on, the receiver drives its tracker through a legal tracker run, and its messages ask for what the tracker requested |
| `ReceiverRuns.RetransmissionIsBounded` | src/client/receiver.rs:333-369 | While retransmission stays on, at most total times max_retries chunks are asked for, and a chunk missing at max_retries full requests is received or reported failed |
| `ReceiverRuns.RequestsBoundedAcrossSwitches` | src/client/receiver.rs:135-155 | Over every run, switching off included: at most chunk count times max_retries, once more for every time retransmission is switched off |
| `Staleness.DeliveryKeepsInStepIff` | src/client/receiver.rs:178-209 | A packet puts tracker and receiver out of step exactly when it is a damaged copy of an accepted chunk |
| `Staleness.LateSwitchOnIff` | src/client/receiver.rs:144-147 | Enabling retransmission after EOF leaves the tracker in step iff nothing below the total has arrived |
| `SampleRuns.LateSwitchOnMisleads` | src/client/receiver.rs:144-147 | A run from the start: both chunks of a file, then retransmission enabled; the transfer is complete and the tracker believes both chunks missing |
| `Staleness.StepInStepIff` | src/client/receiver.rs:135-369 | Any one event puts them out of step iff it is such a copy or such a switch; requests and switching off never do |
| `Staleness.RunInStepIff` | src/client/receiver.rs:135-369 | Over every run they stay in step throughout iff no event is such a copy or such a switch |
| `Staleness.StaleForever` | src/client/receiver.rs:205-209 | Once out of step, no event but switching off repairs it |
| `Staleness.StaleIsReportedFailed` | src/client/receiver.rs:381-387 | Such a chunk is finally reported failed although it was received |
| `SampleRuns.DamagedCopyEndsAsFailed` | src/client/receiver.rs:178-209 | A run from the start: both chunks of a file, a damaged copy of the first, five requests; the transfer is complete, the chunk received, and reported failed |
| `SampleRuns.SampleRunsGoWrong` | src/client/receiver.rs:178-209 | That run, and the one with an unreadable first chunk, exist with the sample codec |
| `FileReceivers.FileReceiver.constructor` | src/client/receiver.rs:78-128 | The opening state over an old part file |
| `FileReceivers.FileReceiver.EnableAutoRetransmit` | src/client/receiver.rs:135-148 | Retransmission is on; a tracker is made only if the total is known and there is none |
| `FileReceivers.FileReceiver.DisableAutoRetransmit` | src/client/receiver.rs:151-155 | Retransmission is off and the tracker gone |
| `FileReceivers.FileReceiver.ReceiveChunk` | src/client/receiver.rs:164-294 | The in-place method equals the specification in state and answer; a packet that can be read, has the length it says and not the checksum is refused as such, and reported iff retransmission is on |
| `FileReceivers.FileReceiver.NewTracker` | src/client/receiver.rs:267-275 | The tracker made at EOF knows exactly what has arrived |
| `FileReceivers.FileReceiver.FindMissing` | src/client/receiver.rs:316-324 | Exactly the missing ids, ascending, once EOF is known |
| `FileReceivers.FileReceiver.RequestMissingChunks` | src/client/receiver.rs:333-369 | Equals the specification for some legal pick; retries are spent even if sending fails |
| `FileReceivers.FileReceiver.FinalizeFile` | src/client/receiver.rs:442-496 | Equals the specification of finalize |
| `FileReceivers.FileReceiver.SetExpectedHash` | src/client/receiver.rs:391-400 | Refused unless 32 bytes long |
| `TrackerModel.NextBatchInv` | src/retransmission/missing.rs:95-127 | A batch keeps the invariant, and the retry counts grow by exactly its length |
| `TrackerModel.BatchAges` | src/retransmission/missing.rs:95-127 | A chunk in flight is requested again iff its request was made more than the timeout ago and it has retries left; otherwise a request within the timeout and its retry count stay as they are, and everything in the batch is in flight since now |
| `TrackerModel.SweptFlight` | src/retransmission/missing.rs:103-117 | The sweep leaves in flight exactly the requests made no longer ago than the timeout |
| `TrackerRuns.RequestedAgainIff` | src/retransmission/missing.rs:95-127 | A run from the empty tracker: a damaged chunk is requested, and the next batch repeats it iff more than the timeout has passed and a second retry is allowed |
| `TrackerModel.BatchIs` | src/retransmission/missing.rs:95-127 | A batch names no chunk twice and only missing chunks with retries left |
| `TrackerModel.SweepInv` | src/retransmission/missing.rs:103-117 | Timed-out ids leave the in-flight list and were neither received nor pending |
| `TrackerModel.MarkInv` | src/retransmission/missing.rs:59-73 | Marking keeps the invariant |
| `TrackerRuns.RunInv` | src/retransmission/missing.rs:59-127 | Invariant over every run: disjoint sets, distinct in-flight ids below the total, retries within the limit |
| `TrackerRuns.RequestsBounded` | src/retransmission/missing.rs:95-127 | All requests of a run number at most total times max_retries |
| `TrackerRuns.NothingForgotten` | src/retransmission/missing.rs:66-73 | A chunk last heard of as corrupted is pending, in flight or reported failed |
| `TrackerRuns.MarkAllIs` | src/client/receiver.rs:347-350 | After marking everything missing, exactly the missing chunks are pending and nothing is in flight |
| `TrackerRuns.RequestAllIs` | src/client/receiver.rs:347-353 | A full request asks for exactly its pick; with a large enough limit, for every missing chunk with retries left |
| `TrackerRuns.RequestAllPays` | src/client/receiver.rs:347-353 | Retries left over the missing chunks fall by exactly the number asked for |
| `TrackerRuns.RetriesSpent` | src/client/receiver.rs:347-353 | Each full request that finds a chunk missing spends one of its retries until none is left |
| `TrackerRuns.ReceivedOrFailed` | src/retransmission/missing.rs:148-153 | After max_retries full requests a chunk is received or failed |
| `MissingChunks.MissingChunkTracker.WithConfig` | src/retransmission/missing.rs:46-56 | The empty tracker with the given limits |
| `MissingChunks.MissingChunkTracker.MarkReceived` | src/retransmission/missing.rs:59-63 | Matches the specification |
| `MissingChunks.MissingChunkTracker.MarkCorrupted` | src/retransmission/missing.rs:66-73 | Matches the specification; ids past the total are ignored |
| `MissingChunks.MissingChunkTracker.GetMissing` | src/retransmission/missing.rs:76-80 | The unreceived ids, ascending |
| `MissingChunks.MissingChunkTracker.GetPendingRetransmit` | src/retransmission/missing.rs:83-92 | The ready chunks, each once, in any order; no index out of range |
| `MissingChunks.MissingChunkTracker.GetNextBatch` | src/retransmission/missing.rs:95-127 | Picks min(limit, ready) ready chunks and on top of them exactly the requests in flight for more than the timeout that have retries left; younger requests keep time and retry count, and everything in the batch is in flight since now |
| `MissingChunks.MissingChunkTracker.RequeueTimedOut` | src/retransmission/missing.rs:103-117 | Requests made no longer ago than the timeout stay in flight; of the others exactly those with retries left are to be repeated |
| `MissingChunks.MissingChunkTracker.GetFailedChunks` | src/retransmission/missing.rs:148-153 | Exactly the unreceived chunks with no retries left |
| `QueueModel.EndsIff` | src/retransmission/queue.rs:120-141 | The rotation loop ends iff ready entries reach the limit or all entries are ready |
| `QueueModel.LoopResult` | src/retransmission/queue.rs:120-141 | Where it ends, it has taken the ready entries it looked at and left the unvisited ones followed by the skipped ones |
| `QueueModel.TakenIsFirstReady` | src/retransmission/queue.rs:120-141 | The batch is the first min(limit, ready) ready entries in queue order |
| `QueueModel.NeverStops` | src/retransmission/queue.rs:125-129 | With too few ready entries and one not ready the loop never stops, whatever the number of turns |
| `QueueRuns.RetryTooSoonHangs` | src/retransmission/queue.rs:152-159 | Concrete run from the empty queue: enqueue, dequeue, fail, and a dequeue within the retry interval never returns |
| `QueueRuns.Step` | src/retransmission/queue.rs:69-205 | Every operation keeps the invariant and changes the known ids by exactly what it adds and removes |
| `QueueRuns.RunInv` | src/retransmission/queue.rs:69-205 | Over every run no id occurs twice, in-flight stays within its limit and both together within theirs |
| `QueueRuns.StaysKnownIff` | src/retransmission/queue.rs:107-184 | A queued id is queued or in flight after every step of a run iff the run never receives it, clears the queue or dequeues when its request is 30000 ms old |
| `QueueRuns.SweepLosesChunkIff` | src/retransmission/queue.rs:111-114 | A run from the empty queue: an unreceived chunk, requested and dequeued again after a delay, is still known iff the delay is below 30000 ms |
| `QueueRuns.DequeueIs` | src/retransmission/queue.rs:107-144 | A dequeue keeps exactly the requests younger than 30000 ms in flight; it takes as many entries that are new or past the retry interval as batch size and free slots allow and no others, stamped with now and one more retry |
| `QueueRuns.TimeoutsAre` | src/retransmission/queue.rs:162-184 | Exactly the requests made more than the timeout ago move unchanged to the front of the queue; the others stay in flight |
| `QueueRuns.LoopKeepsIds` | src/retransmission/queue.rs:120-141 | The loop neither loses nor duplicates an entry |
| `RetransmissionQueues.RetransmissionQueue.EnqueueChunk` | src/retransmission/queue.rs:69-93 | Accepts iff no entry of either list has the id and the queue has room, and then appends a new entry at the end |
| `RetransmissionQueues.RetransmissionQueue.EnqueueBatch` | src/retransmission/queue.rs:96-104 | One by one; the count is how many were accepted |
| `RetransmissionQueues.EnqueueAllCounts` | src/retransmission/queue.rs:96-104 | The count is the growth of the queue |
| `RetransmissionQueues.RetransmissionQueue.DequeueNext` | src/retransmission/queue.rs:107-144 | Under the exact condition for returning: the batch is the first ready entries in order, the state is as specified, and requests 30000 ms old are dropped and no others |
| `RetransmissionQueues.RetransmissionQueue.FillBatch` | src/retransmission/queue.rs:120-141 | The loop itself, with its termination measure |
| `RetransmissionQueues.RetransmissionQueue.ChunkReceived` | src/retransmission/queue.rs:147-150 | Removes the id from both lists |
| `RetransmissionQueues.RetransmissionQueue.ChunkFailed` | src/retransmission/queue.rs:153-159 | Moves the request to the front, keeping its time and count |
| `RetransmissionQueues.RetransmissionQueue.RequeueTimeouts` | src/retransmission/queue.rs:162-184 | Exactly the requests made more than the timeout ago go to the front in reverse order, counted; the rest keep theirs |
| `RetransmissionQueues.RetransmissionQueue.ClearQueues` | src/retransmission/queue.rs:202-205 | Both lists empty |
| `ChunkMarks.HonestRun` | src/chunking/bitmap.rs:101-159 | For a sender of n chunks flagging only the last: in any order with any duplicates the bitmap records exactly what arrived and is complete iff all has |
| `ChunkMarks.HonestCompleteIff` | src/chunking/bitmap.rs:156-200 | With no id beyond EOF: complete iff EOF seen and nothing missing; received and missing add up to the total |
| `ChunkMarks.ExactNowIff` | src/chunking/bitmap.rs:156-159 | At one moment after EOF the counter test is right iff nothing was recorded beyond the end, or some chunks are missing but not as many as lie beyond |
| `ChunkMarks.ExactForeverIff` | src/chunking/bitmap.rs:101-159 | The test is right whatever chunks arrive from now on iff nothing was recorded beyond the end |
| `ChunkMarks.ArrivalsExactIff` | src/chunking/bitmap.rs:101-159 | In terms of arrivals: it is right from EOF on, whatever follows, iff no earlier chunk had an id above the EOF chunk |
| `ChunkMarks.CountedButNotComplete` | src/chunking/bitmap.rs:156-159 | Concrete failure: chunk 5, then EOF at 1, is complete with chunk 0 missing |
| `ChunkMarks.CompleteIsStableIff` | src/chunking/bitmap.rs:101-135 | Once complete, no later chunk changes anything iff nothing was recorded beyond the end |
| `ChunkMarks.MarkWellFormed` | src/chunking/bitmap.rs:101-135 | Marking keeps ids below the capacity, the total within it, and the EOF chunk recorded |
| `ChunkMarks.RejectedChangesNothing` | src/chunking/bitmap.rs:101-118 | A duplicate or a chunk beyond the end changes neither ids nor total nor EOF, whatever its flag |
| `ChunkMarks.NextPowerOfTwoIsLeast` | src/chunking/bitmap.rs:143 | The least power of two that fits |
| `ChunkMarks.GrownIs` | src/chunking/bitmap.rs:139-150 | A grown bitmap has twice the old capacity or the least power of two that holds the chunk, whichever is larger |
| `ChunkMarks.GrowthIsLinear` | src/chunking/bitmap.rs:139-150 | All reallocations of a run cost less than four times one past the largest chunk id; once grown, the capacity stays below twice that |
| `ChunkBitmaps.SetBitSetsOne` | src/chunking/bitmap.rs:120-123 | Setting a bit sets that bit and no other |
| `ChunkBitmaps.ChunkBitmap.constructor` | src/chunking/bitmap.rs:35-51 | Empty; a capacity of zero means 1024 |
| `ChunkBitmaps.ChunkBitmap.WithExactSize` | src/chunking/bitmap.rs:54-64 | Empty with a known total |
| `ChunkBitmaps.ChunkBitmap.IsReceived` | src/chunking/bitmap.rs:80-89 | The bit test is set membership |
| `ChunkBitmaps.ChunkBitmap.MarkReceived` | src/chunking/bitmap.rs:101-135 | The packed update refines the set operation and keeps byte length, spare bits and counter right |
| `ChunkBitmaps.ChunkBitmap.GrowToFit` | src/chunking/bitmap.rs:139-150 | Growth keeps the set |
| `ChunkBitmaps.ChunkBitmap.IsComplete` | src/chunking/bitmap.rs:156-159 | The counter test on the set |
| `ChunkBitmaps.ChunkBitmap.FindMissing` | src/chunking/bitmap.rs:188-200 | Exactly the missing ids, ascending |
| `ChunkBitmaps.ChunkBitmap.FindMissingInRange` | src/chunking/bitmap.rs:204-215 | Its restriction to the range, bounded by total or capacity |
| `ChunkBitmaps.ChunkBitmap.FindFirstMissing` | src/chunking/bitmap.rs:219-234 | Its prefix of length max(n, 1) |
| `ChunkBitmaps.ChunkBitmap.FindGaps` | src/chunking/bitmap.rs:238-266 | Sorted maximal ranges whose expansion is the missing list |
| `ChunkBitmaps.ScanFindsGaps` | src/chunking/bitmap.rs:244-262 | The scan as a function ends with exactly the gaps |
| `ChunkBitmaps.ChunkBitmap.Reset` | src/chunking/bitmap.rs:269-276 | Empty again, capacity kept |
| `ChunkBitmaps.ChunkBitmap.GetReceivedChunks` | src/chunking/bitmap.rs:348-360 | Exactly the recorded ids below the total, ascending |
| `ChunkBitmaps.ChunkBitmap.Save` | src/chunking/bitmap.rs:291-305 | The bytes of the file |
| `ChunkBitmaps.ChunkBitmap.Load` | src/chunking/bitmap.rs:308-340 | Equals the loading function; short headers are an error |
| `ChunkBitmaps.SavedFileIs` | src/chunking/bitmap.rs:291-305 | The saved file byte by byte: three little-endian words and the EOF byte, then for each chunk up to the capacity bit k mod 8 of byte k / 8, set iff the chunk is recorded |
| `ChunkBitmaps.LoadedFileIs` | src/chunking/bitmap.rs:308-340 | What each field is read from, for any file with a header |
| `ChunkBitmaps.LoadSavedIff` | src/chunking/bitmap.rs:291-340 | Saving and loading restores every field iff the total is not a known zero |
| `ChunkBitmaps.SaveLoadedIff` | src/chunking/bitmap.rs:308-340 | Any 13 bytes load; saving gives the same file iff its EOF byte is 0 or 1 |
| `ChunkBitmaps.TruncatedFileLoadsInvalid` | src/chunking/bitmap.rs:329-339 | A truncated bit vector loads without error into a bitmap no set describes |
| `ChunkBitmaps.TruncatedClaimPanicsIff` | src/chunking/bitmap.rs:308-360 | Listing the received chunks of such a bitmap panics iff the total is known and the file was cut before the bit of the last chunk |
| `ChunkBitmaps.ClaimPanicsIff` | src/chunking/bitmap.rs:80-89 | For any bitmap in memory: listing panics iff the vector has fewer bits than the smaller of total and capacity |
| `ChunkBitmaps.ChunkBitmap.TryReceivedChunks` | src/chunking/bitmap.rs:348-360 | For any bitmap, well formed or not: a panic iff a bit past the end of the vector is looked up, else the recorded ids below the total |
| `Collections.AbsentIs` | src/chunking/bitmap.rs:188-200 | The missing list is ascending and exact |
| `Collections.MissingCount` | src/chunking/bitmap.rs:188-200 | Missing and recorded below n add up to n |
| `ResumeModel.ResumePartition` | src/client/transfer.rs:911-917 | The skip set is exactly the claimed ids below the total, and with the missing list it partitions the file |
| `ResumeModel.SendPartition` | src/client/transfer.rs:1242-1306 | Of any pipeline output: the ids sent and the skip set are disjoint, every chunk is sent, skipped or known by hash, and with no known hashes sent and skipped make up the output |
| `ResumeModel.SentIdsIs` | src/client/transfer.rs:1253-1282 | A chunk is sent iff it survived the pipeline, is not in the skip set, and its hash is not known to the server |
| `ResumeModel.SavedWhen` | src/client/transfer.rs:1295-1306 | File and mirror change only after a chunk that was sent and stands at a multiple of a hundred or at the end; the file is then the bitmap |
| `ResumeModel.WholePartition` | src/client/transfer.rs:1242-1306 | With no chunk dropped and no known hashes, sent and skipped partition the file |
| `ResumeModel.MarkedPrefixIff` | src/client/transfer.rs:1295-1299 | After n chunks the bitmap is the skip set plus the first n iff every position whose chunk was not sent is the id of a skipped chunk |
| `ResumeModel.MarkedIsSentIff` | src/client/transfer.rs:1295-1306 | In a fresh transfer the saved bitmap records exactly the ids sent so far iff the pipeline dropped none of as many first chunks |
| `ResumeModel.MarkedIsTrueIff` | src/client/transfer.rs:1295-1306 | In any transfer, fresh or resumed, the bitmap after n chunks records only chunks sent or agreed to be skipped iff every position at which a chunk was sent is the id of such a chunk |
| `ResumeModel.LosslessMarked` | src/client/transfer.rs:1295-1306 | With no chunk dropped and no known hashes, the bitmap after n chunks is the skip set and the first n ids |
| `SampleRuns.DroppedChunkShiftsPositions` | src/client/transfer.rs:1295-1299 | With an unreadable first chunk the bitmap records chunk 0 when chunk 1 was sent |
| `ResumeModel.PositionIsIdIff` | src/client/transfer.rs:1295-1299 | Position in the pipeline equals chunk id iff no earlier chunk was dropped, so only then is the counter a sound bitmap index |
| `ResumeModel.AllSurvive` | src/chunking/parallel.rs:203-230 | With all chunks readable, positions are ids and the packets are the sequential ones |
| `ResumeModel.FreshSendsAll` | src/client/transfer.rs:1253-1295 | Nothing to skip: every packet is sent, in order |
| `ResumeModel.MirrorExactIff` | src/client/transfer.rs:968-974 | After a save the mirror equals the bitmap iff it held nothing else and already held every id more than 100 below the count |
| `ResumeModel.FreshMirror` | src/client/transfer.rs:960-974 | In a fresh transfer, with chunks dropped or not, the mirror equals the bitmap after every save, and lags at most 100 chunks between saves |
| `ResumeModel.FreshDisk` | src/client/transfer.rs:1301-1306 | A fresh transfer stopped after n chunks leaves the positions up to the last save on disk |
| `ResumeModel.ResumedMirrorMisses` | src/client/transfer.rs:968-974 | In a resumed transfer with an empty mirror, a skipped chunk far below the count is in every saved bitmap and never in the mirror |
| `UploadClients.UploadClient.SaveResumeBitmap` | src/client/transfer.rs:960-988 | The file on disk is the bitmap and loads back as it; the mirror gains only the ids from a hundred below the count on |
| `UploadClients.UploadClient.SendChunks` | src/client/transfer.rs:1237-1320 | The send loop puts exactly the frames of the chunks to be sent on the stream, announces its end iff the frame of the last chunk is sent and left one byte short, and file and mirror are those of the last save |
| `UploadClients.UploadClient.SendOne` | src/client/transfer.rs:1253-1306 | One turn: frame or skip, whether the end is announced with it, bitmap and save decision |
| `UploadClients.UploadClient.MarkSkipped` | src/client/transfer.rs:1242-1247 | The skipped chunks that exist are marked |
| `UploadClients.UploadClient.ChunksToClaim` | src/client/transfer.rs:803-833 | In terms of the bytes on disk: without a file of 13 bytes or more, the ids in memory; with a zero counter, none; a panic iff the vector is too short for a lookup; otherwise the ids below total and capacity whose bits are set |
| `UploadClients.UploadClient.SkipSet` | src/client/transfer.rs:911-917 | Every id not on the missing list |
| `UploadClients.AnswerResume` | src/server/transfer.rs:297-307 | The rebuilt bitmap holds the claimed ids that exist; the rest is missing |
| `UploadClients.Negotiate` | src/client/transfer.rs:792-957 | If both messages arrive, the client skip set and the server bitmap are both exactly the chunks of this file that the saved bitmap, or without a loadable file the memory, records, for whatever chunk count the file was saved; without an answer nothing is skipped; the client panics iff its saved file is too short |
| `UploadClients.ResumeFromMemory` | src/client/transfer.rs:803-833 | A fresh transfer is stopped and its saved file lost or cut inside the header: the resumed upload skips exactly the chunks up to the last save |
| `ManifestSend.SendManifest` | src/client/transfer.rs:704-761 | Ends within 101 attempts per byte and one more round; the transport always has exactly the acknowledged prefix; fails iff 101 attempts in a row moved nothing |
| `ManifestSend.RetriesCountStall` | src/client/transfer.rs:707-741 | The retry counter is the length of the current stall |
| `ManifestSend.HundredRefusalsGoOn` | src/client/transfer.rs:707-741 | A hundred refused attempts in a row do not end the send: if the next one takes the manifest it is sent |
| `IndexModel.LoadSavedIff` | src/chunking/dedup.rs:72-127 | load after save restores the index, order of locations included, whatever the map order, iff no path holds a bar or a line feed |
| `IndexModel.LoadedIsClean` | src/chunking/dedup.rs:93-127 | Whatever the file, loaded paths hold no separator and no bucket is empty |
| `IndexModel.LineRoundTrip` | src/chunking/dedup.rs:77-123 | A written line is one line and reads back as its record |
| `IndexModel.SampleLine` | src/chunking/dedup.rs:77-86 | One line spelled out: lower-case hash, path, offset and size in decimal, with bars between them |
| `IndexModel.SkippedIff` | src/chunking/dedup.rs:102-107 | A line is passed over iff it does not hold exactly three bars |
| `IndexModel.FieldsDecide` | src/chunking/dedup.rs:105-116 | A line of four fields is an error iff the hash is not hexadecimal, in either case, or offset or size is not a decimal number of 64 or 32 bits |
| `IndexModel.LoadGoesOn` | src/chunking/dedup.rs:100-127 | Loading two files of lines one after the other is loading both at once, unless the first ends in an error |
| `IndexModel.LoadLine` | src/chunking/dedup.rs:100-127 | An unreadable line ends the load and keeps what came before; a good one adds its location behind the others of its hash |
| `IndexModel.BarPathIsDropped` | src/chunking/dedup.rs:105-107 | A record whose path holds a bar is passed over without an error |
| `IndexModel.RemoveIs` | src/chunking/dedup.rs:135-140 | The locations of a path equal in its components go, all others keep their order, and a hash is known after iff another file has it |
| `IndexModel.RemoveKeepsOtherNames` | src/chunking/dedup.rs:135-140 | Removing one file leaves every location of a file with another name, alone or in the same directory |
| `Text.SamePlainIff` | src/chunking/dedup.rs:135-140 | Two plain names are the same path iff they are equal |
| `Text.SameInsideIff` | src/chunking/dedup.rs:135-140 | Two files in directories are the same path iff the directories are and the names are equal |
| `Text.SlashesAndDots` | src/chunking/dedup.rs:135-140 | Repeated slashes, a slash at the end, and a dot inside or at the end make no difference |
| `Text.StartMatters` | src/chunking/dedup.rs:135-140 | A slash or a dot at the start does |
| `IndexModel.RemoveUndoesAdd` | src/chunking/dedup.rs:41-140 | Removing a file cancels every location added for it |
| `IndexModel.AddThenRemove` | src/chunking/dedup.rs:41-140 | Adding a new file and removing it leaves the index unchanged |
| `ChunkHashIndexes.ChunkHashIndex.AddChunk` | src/chunking/dedup.rs:41-45 | Appends to the hash's bucket |
| `ChunkHashIndexes.ChunkHashIndex.HasChunk` | src/chunking/dedup.rs:48-50 | Known iff some location exists |
| `ChunkHashIndexes.ChunkHashIndex.CheckHashes` | src/chunking/dedup.rs:59-64 | Of the hashes asked exactly those with some recorded location, in the order asked |
| `ChunkHashIndexes.ChunkHashIndex.Save` | src/chunking/dedup.rs:72-90 | The text of all records in some order that visits every key once |
| `ChunkHashIndexes.ChunkHashIndex.LoadFile` | src/chunking/dedup.rs:93-127 | Loads line by line into the present index; stops with an error at a bad field, keeping what came before |
| `ChunkHashIndexes.ChunkHashIndex.RemoveFile` | src/chunking/dedup.rs:135-140 | The locations whose path has the same components go, with the hashes left without any |
| `ChunkHashIndexes.SaveThenLoad` | src/chunking/dedup.rs:72-127 | The round trip through the methods, iff no path holds a separator |
| `Text.DecimalRoundTrip` | src/chunking/dedup.rs:111-114 | A printed number reads back, or is refused if too wide |
| `Text.HexRoundTrip` | src/chunking/dedup.rs:108-109 | Hexadecimal bytes read back |
| `Text.ReturnIsDropped` | src/chunking/dedup.rs:100-101 | A carriage return before the line feed is dropped with it |
| `Manifests.ValidIff` | src/validation/manifest.rs:82-260 | Passes iff the names are well formed, the sizes are in bounds, (N-1)*cs < size <= N*cs, and there are N hashes of 32 bytes |
| `Manifests.BuiltIsValidIff` | src/protocol/manifest.rs:196-252 | A manifest from build_from_hashes passes iff its names are well formed and its sizes are in bounds (and, strictly, its compression is known) |
| `Manifests.BuildsIff` | src/protocol/manifest.rs:196-252 | build_from_hashes succeeds iff the name is not empty, the file is not, all hashes have 32 bytes and there is one for each chunk; the original size is left out iff there is no compression |
| `Manifests.StrictIff` | src/validation/manifest.rs:94-97 | Strict validation asks on top for one of five compressions and, if an original size is given, that it is within 2^40 and at least half the file size |
| `Manifests.FirstRuleReported` | src/validation/manifest.rs:82-213 | Which fault of names or sizes is reported: the first in the order session id, file name, file size, chunk size, chunk count |
| `Manifests.FirstHashRuleReported` | src/validation/manifest.rs:193-260 | With names and sizes in bounds: a wrong chunk count before a wrong file hash before a wrong number of hashes before the first hash of the wrong length |
| `Manifests.ByteLengthIs` | src/validation/manifest.rs:107-112 | Names are measured in UTF-8 bytes: additive, and the number of characters iff all are ASCII |
| `Manifests.HasPairIff` | src/validation/manifest.rs:140 | A name is refused for `..` or `//` iff it has the two characters next to each other somewhere |
| `Manifests.FirstBad` | src/protocol/manifest.rs:226-235 | The first hash of the wrong length |
| `Manifests.PiecesAreChunksIff` | src/protocol/manifest.rs:136-157 | The sequential hasher cuts at chunk boundaries iff no read is short |
| `Manifests.HashSequentially` | src/protocol/manifest.rs:123-160 | One hash per read up to the first empty one, or per chunk; those of the parallel hasher if every read is full |
| `Manifests.SequentialIsParallel` | src/protocol/manifest.rs:123-160 | With full reads both hashers agree |
| `Manifests.HashFile` | src/protocol/manifest.rs:163-187 | The hash of what was read before the first empty read; the hash of the file, however the reads are cut, if none is empty |
| `Manifests.BuildManifest` | src/protocol/manifest.rs:66-120 | Fails iff the file is empty or a parallel read fails; sizes and count are those of the file; chunk hashes are right in parallel or with full reads, and fewer than counted if the file ends early |
| `Manifests.LocationsTileIff` | src/server/transfer.rs:657-671 | The recorded locations, with wrap-around, tile [0, size) iff the hash count is the ceiling count |
| `Manifests.LocationsAreTruthful` | src/server/transfer.rs:657-674 | With the right hashes, the bytes at every recorded location have the hash they are filed under |
| `Manifests.RecordLocations` | src/server/transfer.rs:657-674 | The loop appends exactly those records to the index |
| `Manifests.RecordThenRemove` | src/server/transfer.rs:657-674 | Entering a received file into the index and removing its path leaves the index as it was, if the path was not there |
| `TableModel.SoundIff` | src/chunking/table.rs:178-223 | The check passes iff the ids are 0..n-1, neighbours meet (modulo 2^64) and only the last entry may be EOF |
| `TableModel.FaultReported` | src/chunking/table.rs:178-223 | Which fault is reported: the first number out of place; with offsets in order the number of end marks if above one, else one that is not on the last entry |
| `TableModel.MismatchReported` | src/chunking/table.rs:196-206 | An offset mismatch is reported at k iff the numbers count up and entry k is the first that does not end, in 64 bits, where the next begins |
| `TableModel.SoundTiles` | src/chunking/table.rs:163-223 | Then, unless offsets overflow, entry k starts after all bytes before it and bytes_stored telescopes to last end minus first offset |
| `TableModel.SoundMissing` | src/chunking/table.rs:126-153 | Then the number missing is max(0, total - n), and a complete table misses nothing |
| `TableModel.SoundAndComplete` | src/chunking/table.rs:126-223 | Sound and complete: exactly the ids below the total, tiling from the first offset |
| `TableModel.CompleteMissesNoneIff` | src/chunking/table.rs:126-153 | A complete table misses nothing iff no number lies beyond the total; offsets and EOF flags do not matter |
| `TableModel.CompleteRightIff` | src/chunking/table.rs:126-153 | The test is right whatever chunks of the file are added iff no number lies beyond the total |
| `TableModel.CompleteButMissing` | src/chunking/table.rs:126-131 | Complete alone is not enough: one entry numbered 1 |
| `ChunkTables.ChunkTable.SetFileInfo` | src/chunking/table.rs:80-83 | Sets size and count, and leaves the entries alone |
| `TableModel.ChunkerTableIsSound` | src/chunking/chunker.rs:88-123 | A table filled with the metadata of the packets the chunker yields passes, is complete and stores as many bytes as the file has |
| `ChunkTables.ChunkTable.Insert` | src/chunking/table.rs:86-88 | Replaces under the chunk number and returns what was there |
| `ChunkTables.ChunkTable.Remove` | src/chunking/table.rs:101-103 | Removes that entry only |
| `ChunkTables.ChunkTable.MissingChunks` | src/chunking/table.rs:141-153 | Exactly the ids below the total without an entry |
| `ChunkTables.ChunkTable.BytesStored` | src/chunking/table.rs:163-165 | The sum of lengths modulo 2^64, independent of the map order |
| `ChunkTables.ChunkTable.Sorted` | src/chunking/table.rs:183-184 | The entries in ascending order of number |
| `ChunkTables.ChunkTable.VerifyIntegrity` | src/chunking/table.rs:178-223 | Passes iff the table is well sequenced |
| `ChunkTables.CheckSorted` | src/chunking/table.rs:186-221 | The first failing check gives the verdict |

## Left out

- QUIC, sockets, TLS, handshake, stream priorities, heartbeat, migration and connection errors: library calls and timing.
- Lost connections and a transport that stops taking bytes for good: each frame is taken in any portions but in the end
  whole, what is sent arrives, and so does the end of the stream if it was announced.
- Protocol Buffers, Zstandard, BLAKE3, rayon and crossbeam: the laws used are stated, their code is not modelled.
- Failing writes, seeks and renames, and the disk-sync modes beyond memory or disk (`SyncEvery(0)` divides by zero in the
  source): they change no content here.
- Command line, configuration, certificates, logging, progress ratios and statistics.
- The server's periodic save of its own bitmap: the file is never read back.
- Damage to a packet's metadata: the checksum covers the payload only, so genuine packets have intact metadata.
- Chunk size zero, which divides by zero in the source: chunk sizes are positive.
- A manifest without chunks on the server, and one with 2^32 - 7 chunks or more: the bitmap's size is a 32-bit number.
- Byte offsets of packets beyond 64 bits; elsewhere (seeks, recorded locations, the chunk table) wrap-around is modelled.
- `ControlStreamHandler`, `ClientSession` and the disabled hash-check phase of the client.
- Which characters are letters or digits in a session id: Unicode's classification is a parameter.
- Paths that are not valid UTF-8: the index writes them lossily. Paths are those of a Unix system.
- Channels between pipeline and sender: the worker's output is the sequence it sends, and a dropped receiver is not modelled.
- ChunkBitmaps.ChunkBitmap.constructor: requires a capacity below 2^32 - 7, beyond which the byte count overflows.
- ChunkBitmaps.ChunkBitmap.WithExactSize: requires a total below 2^32 - 7, for the same reason.
- ChunkBitmaps.ChunkBitmap.MarkReceived: requires that growth stays within 32 bits, where a debug build panics and a release
  build wraps.
- ChunkBitmaps.ChunkBitmap.GrowToFit: requires the same.
- RetransmissionQueues.RetransmissionQueue.DequeueNext: requires the exact condition for returning, since a method must
  terminate; `EndsIff` says what happens without it.
- RetransmissionQueues.RetransmissionQueue.FillBatch: requires the same.
- UploadClients.UploadClient.SaveResumeBitmap: the mirror is made when the session starts rather than at the first save, and
  for the same chunk count.
- ReceiverRuns.RunSeen: does not cover switching retransmission off, which discards the tracker and with it the run.
- ReceiverRuns.RetransmissionIsBounded: does not cover switching off; `RequestsBoundedAcrossSwitches` does.
- TableModel.ChunkerTableIsSound: no code of the repository fills a chunk table, so the model fills it.
- ManifestSend.SendManifest: a transport takes at most what it is offered; every call carries FIN, as in the source.
