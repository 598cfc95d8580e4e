# rustdesk-server-demo: a verified model

This project models, in Dafny, the parts of the rustdesk demo server and of its common library
that carry state, arithmetic or a protocol, and proves what they promise. `dafny verify
dfyconfig.toml` checks the whole project.

## The layers

| file | what it models |
|---|---|
| `Octets.dfy` | byte strings, little-endian integers |
| `BytesCodec.dfy` | the length-prefixed frame codec: incremental decoder, encoder, raw mode |
| `FramedStream.dfy` | a framed, optionally sealed TCP stream: message counters, nonces, timeouts, handover to raw mode |
| `Relay.dfy` | the relay loop over two raw connections |
| `Rendezvous.dfy` | the rendezvous server: registrations, the saved requester, nested relay sessions |
| `AddrMangle.dfy` | mangled socket addresses |
| `Compression.dfy` | block compression with its failure and output limit |
| `TransferJob.dfy` | file transfer jobs: cutting and packing blocks, staging and publishing files |
| `JobLog.dfy`, `Reader.dfy`, `ReadJobs.dfy`, `Progress.dfy`, `Losses.dfy` | the sending side: what the messages of a job say, every turn of a job, whole multiplexed runs, termination, cutting, counters, blocks lost to the compressor |
| `Multiplexer.dfy` | `handle_read_jobs`, `get_job` and `remove_job` in place, and rounds of it until all jobs have ended |
| `Staging.dfy`, `Landing.dfy`, `Receiver.dfy` | the receiving side: one job under every write and every fault of it, whatever its files are called; where every byte lands; dispatch, the invariant of whole runs |
| `EndToEnd.dfy`, `WholeTransfer.dfy` | sender, channel and receiver composed; from a listing and calls of the multiplexer to the files at the other end |
| `Directory.dfy`, `Listing.dfy` | the recursive listing, the job made of it, and the sweep of empty directories |

Every component that changes things in place is a class (`BytesCodec`, `FramedStream`,
`TransferJob`, `FileSystem`, `FileTree`, `RendezvousServer`) whose methods are proved equal to a
function on values (`DecodeStep`, `Receive` and `Send`, `ReadBlock`, `WriteBlock` and `Publish`,
`Swept`, `React`); the lemmas are about those functions and about whole runs of them.

Two independent descriptions meet in the transfer: the sender's run is characterised by the
messages it leaves (`Outcome`, `InOrder`), the receiver's disk by the messages it has seen and the
writes that broke (`FileState`, and exactly by `Placed`), and the channel by the messages that come out being a prefix of those that went in.
The end-to-end theorems are their composition.

## What is assumed, and where

Each is an explicit precondition of the lemmas that need it.

- `Restores`: decompressing undoes every compression that succeeds, and brings nothing out of nothing. The
  compressor may fail on any block; results that need more say so with `NoBlockLost`, for the
  blocks of one file.
- `Faithful`: opening a sealed message under the same nonce and key gives the message back.
- `Parseable`: parsing a serialized transfer message gives it back.
- `FreshJobs`, `FreshReceivers`: jobs have distinct ids; the files of a receiving job have distinct
  destinations, and different jobs write disjoint paths. A destination may be another file's
  staging name: what that does is part of the results.
- `OnTheWire`: sends succeed, sealed messages fit a frame, both ends were keyed at the same point of
  the stream, and the bytes that arrive are the bytes sent, in order.
- Source files do not change during a job.

## Where the code falls short

- A compressor that fails returns the empty vector, which is shorter than any block, so `read` sends it
  and the block's bytes are lost: `Transfer.FailingCompressorLosesData`. A block of up to 128 KiB
  survives exactly if it is empty, of a format that is not compressed again, or compressing it
  succeeds (`Transfer.BlockIntactIff`); a closed file equals its source exactly if that holds of all
  its blocks (`Transfer.CarriedIsContentIff`, `EndToEnd.EndToEndDelivery`).
- If a `write` has to switch from an open file and creating the next staging file fails, or flushing
  the previous one does, which has just been renamed, the job keeps the published file open. These
  are the only ways a `write` loses track of its file: `Transfer.WriteKeepsHandleIff`. After a
  failed creation the following blocks of the new file go to the end of the published one, and
  so would further blocks of the old file after a failed flush: `Transfer.BlocksGoAstray`.
- A write that breaks leaves a file with a part of its bytes, or sends the bytes of the next file to its end, and
  the file is published all the same: `Staging.ShortWriteIsPublished`, `Transfer.BlocksGoAstray`. If no
  destination is a staging name, a file once begun ends up with exactly the bytes that landed on it,
  its own and then the stray ones. That is all that was sent for it exactly if each of its blocks was
  added whole and nothing went astray to it, or if stray bytes spell exactly the end it is missing:
  `Landing.CompleteAtEndIff`. As long as every staging file can be created nothing goes astray:
  `Landing.NoMissNoStray`.
- A staging file left over from earlier can become final although nothing of it was received. While no
  block for its file has come, that happens exactly if it is that of file 0 and the job has acted at
  all (`Landing.LeftoverPromotedIff`). At the end of the job it has happened to file 0 and to every
  file whose staging file could not be created for one of its blocks, unless the file was begun
  after all, and to no other (`Landing.LeftoverFinalIff`).
- A file called like the staging file of a later one, such as the first of `a.download`, `b`, `a`, is
  overwritten when the later one is begun and renamed away with it. That is the only way distinct
  destinations get in each other's way at the end of a transfer: in the order `a`, `a.download` both arrive.
  `Receiver.CompleteIffNotOverwritten`, `EndToEnd.FaultFreeDelivery`.
- `remove_job` removes every job with the id: with a duplicated id the end of one job removes the
  other, finished or not: `ReadJobs.StaysIff`.
- A sealed message the codec refuses, because its length does not fit a head, has already used up its
  number. The two ends are in step exactly while the number of refused messages is a multiple of
  2^64: `Channel.SendsKeepStepIff`.
- Nonces of one direction repeat after 2^64 messages, and not before: `Channel.NoncesDistinctIff`.
- A relay connection whose opening frame is cut off by the timeout loses the frame's head exactly if all
  of the head had arrived, and nothing else: `Channel.HandoverKeepsRemainder`.
- A sweep reached through a link leaves the directory itself in place, even if it ends up empty:
  `Directory.FileTree.RemoveAllEmptyDir`.
- An error message carries the number of the file after the one that failed
  (`libs/hbb_common/src/fs.rs:360-363` and `:507-511`); the model's log keeps that numbering.

## Model

| member | source | states |
|---|---|---|
| Codec.BytesCodec.DecodeHead | libs/hbb_common/src/bytes_codec.rs:35-60 | reads a head of one to four little-endian bytes and consumes exactly it, or consumes nothing when it is incomplete or announces too much |
| Codec.BytesCodec.Decode | libs/hbb_common/src/bytes_codec.rs:74-101 | result, new decoder state and remaining buffer of one call, in head, body and raw mode |
| Codec.BytesCodec.EncodeHead | libs/hbb_common/src/bytes_codec.rs:113-123 | the u8, u16, u16+u8 and u32 writes put down the little-endian length with its size in the two low bits |
| Codec.BytesCodec.Encode | libs/hbb_common/src/bytes_codec.rs:107-128 | appends one frame, the bare bytes in raw mode, or nothing for an oversized payload |
| Codec.HeadRoundTrip | libs/hbb_common/src/bytes_codec.rs:35-60 | every encodable length is read back from its head, whatever follows, or refused exactly over the limit |
| Codec.HeadOnTheWire | libs/hbb_common/src/bytes_codec.rs:113-123 | the head byte by byte: one to four bytes by the length, spelling four times the length plus the number of further head bytes, least significant first |
| Codec.HeadAsRead | libs/hbb_common/src/bytes_codec.rs:35-60 | bytes are a head of a length exactly if the two low bits of the first say how many follow and the rest spell it |
| Codec.DecodeEncoded | libs/hbb_common/src/bytes_codec.rs:74-128 | decoding an encoded payload gives it back and leaves the rest; over the limit it fails and consumes nothing |
| Codec.DecodeMonotone | libs/hbb_common/src/bytes_codec.rs:74-101 | bytes arriving behind the input do not change what a call does, and a call that asked for more resumes without loss |
| Codec.FragmentationIndependence | libs/hbb_common/src/bytes_codec.rs:35-101 | for any byte stream and chunking, frames, failure, final state and residual buffer are those of feeding it whole |
| Codec.FramesSurviveChunking | libs/hbb_common/src/bytes_codec.rs:35-128 | any chunking of encoded payloads within the limit decodes to exactly those payloads, ending idle and empty |
| Codec.ArrivedFramesArePrefix | libs/hbb_common/src/bytes_codec.rs:35-128 | from any part of the stream the frames so far are a prefix of the payloads and the rest of the stream completes them |
| Codec.StuckAfterFailure | libs/hbb_common/src/bytes_codec.rs:54-56 | an oversized head is not consumed, so the failure repeats whatever arrives later |
| Codec.StepConserves | libs/hbb_common/src/bytes_codec.rs:74-101 | on arbitrary input one call turns consumed bytes into one head and its body, or a pending head, and a stored body length is at least one |
| Codec.DrainConserves | libs/hbb_common/src/bytes_codec.rs:35-101 | for any bytes the consumed input is exactly heads and the bodies they announce in alternation, plus the head in progress |
| Codec.ReencodingNeverLonger | libs/hbb_common/src/bytes_codec.rs:113-126 | every frame took at least one byte, and encoding the decoded frames again is never longer than the bytes they took |
| Codec.DrainRaw | libs/hbb_common/src/bytes_codec.rs:75-82 | raw mode passes all buffered bytes on at once, whatever state it was entered in |
| Channel.NonceInjective | libs/hbb_common/src/tcp.rs:125-129 | different u64 counters give different nonces |
| Channel.NonceSpells | libs/hbb_common/src/tcp.rs:125-129 | the nonce is the counter in eight bytes, least significant first on a little-endian machine, and sixteen zero bytes |
| Channel.NoncesDistinctIff | libs/hbb_common/src/tcp.rs:75-80 | the nonces of one direction are pairwise distinct exactly up to 2^64 messages |
| Channel.PollTakesFirstFrame | libs/hbb_common/src/tcp.rs:92-93 | awaiting a frame yields the first frame of all that has arrived or will, and leaves the others |
| Channel.FirstFrameIff | libs/hbb_common/src/tcp.rs:112-119 | a fresh connection's first wait yields a frame exactly if the bytes arrived begin with it, head and body |
| Channel.TakesNoMore | libs/hbb_common/src/tcp.rs:92-93 | a wait takes in no more chunks than its frame needs |
| Channel.ExpiredWaitLosesNothing | libs/hbb_common/src/tcp.rs:112-119 | a wait that expires mid-frame and a later one together do what one long wait does |
| Channel.OpenSealed | libs/hbb_common/src/tcp.rs:75-110 | with the ends in step a sealed message opens to itself and the ends stay in step |
| Channel.SealedReceive | libs/hbb_common/src/tcp.rs:92-107 | with any cipher, any buffer and any chunks: the first frame of a sealed stream is delivered exactly as what it opens to under the key and the next number, and is a decryption error exactly if it does not open; the number is used up either way |
| Channel.PlainReceive | libs/hbb_common/src/tcp.rs:92-110 | without a session the first frame itself is delivered |
| Channel.DeliveredIsOpened | libs/hbb_common/src/tcp.rs:92-107 | over any number of calls the messages are the openings of the frames in order, each under its own number, and the frame behind one that does not open is opened with the next number |
| Channel.SendsKeepStepIff | libs/hbb_common/src/tcp.rs:75-84 | over any sends a refused message writes nothing and uses up a number; the ends of a sealed stream are in step exactly if the refused messages number a multiple of 2^64, and all sends succeed exactly if none is refused |
| Channel.SendManyEncodesAll | libs/hbb_common/src/tcp.rs:75-84 | the bytes on the wire are the encodings of the sealed messages in order |
| Channel.FrameNonces | libs/hbb_common/src/tcp.rs:75-80 | frame i is sealed under the nonce of counter i after the starting counter |
| Channel.Lockstep | libs/hbb_common/src/tcp.rs:91-110 | over any chunking of any part of the stream, the messages received are a prefix of those sent, the counters stay in step, and only missing bytes make the receiver wait |
| Channel.ChannelDelivers | libs/hbb_common/src/tcp.rs:75-110 | what one end sends, cut anyhow, is what the other receives: always a prefix, and everything once everything has arrived |
| Channel.RawReceive | libs/hbb_common/src/tcp.rs:60-63 | a raw stream hands over the next of its buffered and arriving bytes, and waits only when there are none |
| Channel.RawAfterSwitch | libs/hbb_common/src/tcp.rs:60-110 | after the switch to raw mode any stream sends bytes as they are and passes on those buffered and arriving as they are |
| Channel.HandoverKeepsRemainder | libs/hbb_common/src/tcp.rs:60-119 | after the opening wait and the switch to raw mode exactly the bytes behind the opening frame remain; after an expired wait what is lost is the frame's head if it had all arrived, and nothing else |
| Channel.FramedStream.SendRaw | libs/hbb_common/src/tcp.rs:75-84 | counter, sealing and written bytes of one send, the refused one included |
| Channel.FramedStream.SendBytes | libs/hbb_common/src/tcp.rs:86-89 | writes the bytes as one frame, or bare in raw mode, without touching the session |
| Channel.FramedStream.Next | libs/hbb_common/src/tcp.rs:92-110 | the next message, its decryption with the next counter, and the chunks and buffer left |
| Channel.FramedStream.NextTimeout | libs/hbb_common/src/tcp.rs:113-119 | nothing when the time is up, with everything that arrived kept |
| Channel.FramedStream.SetRaw | libs/hbb_common/src/tcp.rs:60-63 | switches the codec to raw and drops the session, keeping the buffer |
| Channel.FramedStream.SetKey | libs/hbb_common/src/tcp.rs:121-123 | starts a session with both counters at zero |
| Mangle.FieldsDisjoint | libs/hbb_common/src/lib.rs:99-105 | the packed fields are 33, 32 and 17 bits wide and never overlap, so the bitwise or is their sum |
| Mangle.StrayBits | libs/hbb_common/src/lib.rs:127-133 | the 24-bit mask also takes in seven clock bits, all above the sixteen bits kept of the port |
| Mangle.UnpackPack | libs/hbb_common/src/lib.rs:127-129 | neither subtraction goes below zero and address and port come back |
| Mangle.PadTrim | libs/hbb_common/src/lib.rs:106-126 | cutting trailing zero bytes and padding with zeros restores the array |
| Mangle.CountPadding | libs/hbb_common/src/lib.rs:107-115 | the loop counts exactly the trailing zero bytes |
| Mangle.EncodeAddr | libs/hbb_common/src/lib.rs:96-121 | the trimmed packed number for IPv4 at the clock truncated to u32, a panic for IPv6 |
| Mangle.DecodeAddr | libs/hbb_common/src/lib.rs:123-134 | decodes the zero-padded number, a panic for more than sixteen bytes or a subtraction below zero |
| Mangle.MangleRoundTrip | libs/hbb_common/src/lib.rs:96-134 | every IPv4 address and port survives encoding and decoding at every clock value, in either byte order |
| Mangle.MangledSpells | libs/hbb_common/src/lib.rs:96-121 | the number on the wire is the address plus the clock, the clock, and the port plus the low clock bits, in their fields |
| Mangle.MangledIsShort | libs/hbb_common/src/lib.rs:105-115 | on a little-endian machine at most eleven bytes, not ending in zero |
| Compression.CapacityNeverCuts | libs/hbb_common/src/compress.rs:28-50 | a block of at most 1 MiB the library can restore is never cut by the output limit |
| JobLog.PayloadBounded | libs/hbb_common/src/compress.rs:28-50 | over any messages of a job what comes out of its blocks is bounded by their data and number |
| Transfer.BlockIntactIff | libs/hbb_common/src/fs.rs:389-402 | a packed block of at most 128 KiB stands for its bytes exactly if there are none, their format is not compressed again, or compressing them succeeds; otherwise it stands for nothing |
| Transfer.CarriedIsContentIff | libs/hbb_common/src/fs.rs:366-402 | what the blocks of a file carry together is the file exactly if the compressor failed on none of its compressible blocks |
| Transfer.FailingCompressorLosesData | libs/hbb_common/src/compress.rs:13-26 | with a failing compressor a compressible block arrives empty |
| Transfer.PackedIsShorter | libs/hbb_common/src/fs.rs:389-402 | bytes of a compressible format go compressed exactly if that is shorter, so the data is the shorter of the two; those of a compressed format go as they are |
| Transfer.ReadIsPacked | libs/hbb_common/src/fs.rs:366-409 | a read sends the next 128 KiB or the rest, packed that way, and counts the bytes read and the data sent |
| Transfer.CompressedFormatIff | libs/hbb_common/src/fs.rs:200-219 | the formats not compressed again are nine endings of the file name |
| Transfer.JoinPathIs | libs/hbb_common/src/fs.rs:339-346 | an absolute name leaves the base, a relative one is put behind it with one slash |
| Transfer.GetExtIs | libs/hbb_common/src/fs.rs:200-205 | the extension is the text behind the last dot, nothing without a dot |
| Transfer.WriteKeepsHandleIff | libs/hbb_common/src/fs.rs:313-326 | a write keeps the open file the current staging file, except exactly when it switches from an open file and flushing the renamed one fails, or creating the next staging file does, unless the open one was renamed to that very name |
| Transfer.BlocksGoAstray | libs/hbb_common/src/fs.rs:313-333 | inputs for which bytes go to the wrong file: after a failed creation the next block of the new file, and after a failed flush one of the old file, is added to the end of the file just published |
| Transfer.TransferJob.constructor | libs/hbb_common/src/fs.rs:222-243 | a new job stands before its first file with all counters zero and the total of the listed sizes |
| Transfer.TransferJob.FillBuffer | libs/hbb_common/src/fs.rs:366-388 | whatever short reads occur, the filled part of the buffer is exactly the next 128 KiB of the file or its rest; no unread byte is in it |
| Transfer.TransferJob.Pack | libs/hbb_common/src/fs.rs:371-400 | compresses only when shorter and never a compressed format |
| Transfer.TransferJob.Read | libs/hbb_common/src/fs.rs:348-410 | new job state and block, end or error of one read, for every fault the file system may commit |
| Transfer.TransferJob.ModifyTime | libs/hbb_common/src/fs.rs:280-293 | renames the current staging file to its final name if it exists |
| Transfer.TransferJob.BeginFile | libs/hbb_common/src/fs.rs:313-326 | publishes the previous file, flushes it if it is open, then starts an empty staging file; a failed flush or creation leaves the old handle open, before or after the change of number |
| Transfer.TransferJob.Write | libs/hbb_common/src/fs.rs:305-337 | new job state, disk and result of one write: the refusals, the failed flush, the failed creation, and a write that adds only some of the bytes included |
| Reader.StepShape | libs/hbb_common/src/fs.rs:348-410 | the four outcomes of a turn, and that a block's payload is the raw bytes at the job's position, or nothing exactly if the compressor failed on them |
| Reader.ReaderStep | libs/hbb_common/src/fs.rs:348-410 | every turn, with any fault, keeps: what was sent for the open file is what its blocks up to the position carry, every file behind has its recorded outcome, numbers never go down, and the counters match what was sent |
| ReadJobs.RemoveJobsIsFilter | libs/hbb_common/src/fs.rs:490-493 | removing the finished ids one by one keeps exactly the other jobs in their order |
| ReadJobs.StaysIff | libs/hbb_common/src/fs.rs:500-525 | a job is still listed after a round exactly when no job with its id ended in it, distinct ids or not |
| ReadJobs.RoundForJob | libs/hbb_common/src/fs.rs:500-525 | with distinct ids a round steps each job once, sends one message for it, and removes it exactly at its end |
| ReadJobs.RunTracksEveryJob | libs/hbb_common/src/fs.rs:348-525 | in every run each job is underway with every file behind it accounted for, or gone with all files accounted for and one end message |
| ReadJobs.LastSeenTracked | libs/hbb_common/src/fs.rs:348-525 | a job as the run last saw it, in the list or at its last turn, satisfies the reader's invariant for all messages it ever sends |
| ReadJobs.FaultsById | libs/hbb_common/src/fs.rs:500-525 | with distinct ids the faults of one call of the multiplexer are those of one round of a run |
| Progress.ReadsCutFile | libs/hbb_common/src/fs.rs:366-409 | read k of a file yields its bytes from k * 128 KiB to the next multiple or the end, and the one behind the last the empty closing block |
| Progress.StepUsesRound | libs/hbb_common/src/fs.rs:348-410 | every turn, errors included, uses up at least one of the rounds a job needs, exactly one without faults |
| Progress.MultiplexerTerminates | libs/hbb_common/src/fs.rs:348-525 | a job is gone with exactly one end message after the sum of ceil(size / 128 KiB) + 1 over its files plus one rounds, and without faults not earlier |
| Progress.NoErrorsLogged | libs/hbb_common/src/fs.rs:505-511 | a job the file system never fails, with all files present, sends no error |
| Progress.CountersBounded | libs/hbb_common/src/fs.rs:393-401 | in every run, at every moment, transfered <= finished_size <= total_size for each job, and a job that has ended without an error has finished_size equal to total_size |
| Multiplexer.Remove | libs/hbb_common/src/fs.rs:490-493 | keeps the jobs with another id, in order |
| Multiplexer.FindJob | libs/hbb_common/src/fs.rs:495-498 | the first job with the id, or none exactly if there is none |
| Multiplexer.ReadAndSend | libs/hbb_common/src/fs.rs:504-520 | after the loop every job has been read once and its message sent, in order; after a refused send exactly the jobs up to that one have been read, and all messages before it are on the stream |
| Multiplexer.HandleReadJobs | libs/hbb_common/src/fs.rs:500-525 | the jobs left and the bytes written are those of one round for the faults that occurred; after a refused send no job is removed |
| Multiplexer.SendEverything | libs/hbb_common/src/fs.rs:500-525 | rounds until no job is left come to an end, and leave the jobs and the bytes on the stream of the run of as many rounds; a refused send stops them inside a round |
| Staging.WriteBlockAt | libs/hbb_common/src/fs.rs:305-337 | the content of every path after a write with any fault: the bytes added at the end of the staging file, the previous file published on a switch, all else unchanged |
| Staging.FirstBlockIsStaged | libs/hbb_common/src/fs.rs:313-334 | the first block of a job is found behind its file's name and `.download`, and nothing else has changed |
| Staging.WriterBlock | libs/hbb_common/src/fs.rs:305-337 | in any job every write, breaking or not, keeps the invariant of the files no broken write has spoiled; the others are the matter of Landing.WritePlaces |
| Staging.ShortWriteIsPublished | libs/hbb_common/src/fs.rs:280-334 | an input for which a broken write tears a file: what it added of the block is published; the exact condition is Landing.CompleteAtEndIff |
| Landing.OwnThenStray | libs/hbb_common/src/fs.rs:305-337 | what has landed on a file is the bytes of its own blocks and behind them those of blocks whose file could not be created |
| Landing.OwnIsSentIff | libs/hbb_common/src/fs.rs:327-334 | the own bytes of a file are all that was sent for it exactly if each of its blocks was added to it whole |
| Landing.CompleteIff | libs/hbb_common/src/fs.rs:305-337 | what has landed on a file is what was sent for it exactly if each of its blocks was added whole and nothing went astray to it, or stray bytes spell exactly the end it is missing |
| Landing.WritePlaces | libs/hbb_common/src/fs.rs:305-337 | every write, with any fault, keeps the exact content of the final and the staging name of every file, as given by the messages and their faults |
| Landing.LeftoverPromotedIff | libs/hbb_common/src/fs.rs:280-314 | at every moment and under every fault, the leftover staging file of a file no block has come for is final exactly if it is that of file 0 and the job has acted |
| Landing.LeftoverFinalIff | libs/hbb_common/src/fs.rs:280-326 | at the end of a job, under every fault, a leftover staging file is final exactly if its file was never begun and is file 0 or could not be created, or was begun and exactly the same bytes landed on it |
| Landing.EndContent | libs/hbb_common/src/fs.rs:280-326 | at the end of a job, under every fault, a begun file holds exactly what landed on it; the leftovers of file 0 and of files that could not be created are final; nothing else has changed |
| Landing.CompleteAtEndIff | libs/hbb_common/src/fs.rs:280-337 | at the end a begun file is complete exactly if each of its blocks was added whole and nothing went astray to it, or stray bytes spell exactly the end it is missing |
| Landing.NoMissNoStray | libs/hbb_common/src/fs.rs:313-326 | as long as every staging file can be created no bytes go astray |
| Landing.StagedIffInWriting | libs/hbb_common/src/fs.rs:313-326 | without a leftover a file has a staging file exactly while it is received, holding exactly what landed on it, its final name as before |
| Landing.UnspoiledIsWhole | libs/hbb_common/src/fs.rs:313-334 | to a file not counted as spoiled every block was added whole and nothing else |
| Staging.OutsideUntouched | libs/hbb_common/src/fs.rs:280-337 | a job changes no path that is not a final or staging name of its own files |
| Receiver.StagingInvariant | libs/hbb_common/src/fs.rs:280-337 | after every prefix of interleaved messages, whichever writes break: every file of a job none of whose destinations is a staging name has exactly the content its messages and their faults say; in any job each unspoiled file is as the first message left it (with the leftover of file 0 promoted), or staged with exactly its bytes so far, or final with exactly its bytes unless a later file was staged there |
| Staging.EndPublishesAll | libs/hbb_common/src/fs.rs:280-293 | in any job, once its end has arrived every unspoiled file with a block is final, unless a later file was staged there, and no staging file of it remains |
| Staging.OnlyCurrentStaged | libs/hbb_common/src/fs.rs:313-325 | in any job without leftovers an unspoiled file is staged only while it is the current one, holding exactly the bytes received for it, its final name as before |
| Receiver.CompleteIffNotOverwritten | libs/hbb_common/src/fs.rs:313-325 | after a faultless transfer of all files of a job, a file is complete exactly if no later file is staged under its final name |
| EndToEnd.SenderLogWellFormed | libs/hbb_common/src/fs.rs:500-525 | the messages of any multiplexed run are ones the receiving side handles |
| EndToEnd.ArrivedIsPrefix | libs/hbb_common/src/tcp.rs:75-110 | what the receiver dispatches is a prefix of the sender's messages, and all of them once all bytes are there |
| EndToEnd.NeverTorn | libs/hbb_common/src/fs.rs:280-525 | at every moment of a multiplexed, framed, sealed and arbitrarily cut transfer each destination that is no staging name and was left intact by broken writes holds its prior content, or the leftover of file 0 or of a file that could not be created, or all its source's blocks carry, or what was sent before a read error; in a job without clashing names every destination holds exactly what its messages and their faults say |
| EndToEnd.NotTornCleanStart | libs/hbb_common/src/fs.rs:280-525 | without a leftover of its own such a destination holds its prior content, or all its source's blocks carry, or what was sent before a read error |
| EndToEnd.CutShortIsPrefix | libs/hbb_common/src/fs.rs:373-378 | if the compressor failed on no block, what was sent of a file before a read error is a prefix of it |
| EndToEnd.EndToEndDelivery | libs/hbb_common/src/fs.rs:305-525 | at the end of any transfer, each file left intact by broken writes: a closed one that no later file was staged on is what its blocks carry, byte for byte the source exactly if the compressor failed on none; one that never opened is as it was, or, for file 0, its leftover; one with a read error holds what its first blocks carry. In a job without clashing names every file holds exactly what landed on it, and is its source exactly if each block was added whole and none lost, when nothing went astray to it |
| EndToEnd.FaultFreeDelivery | libs/hbb_common/src/fs.rs:305-525 | without faults, after the rounds the sizes ask for, a destination equals its source exactly if the compressor failed on none of its blocks and no later file is staged under its name |
| EndToEnd.PerfectDelivery | libs/hbb_common/src/fs.rs:305-525 | with a compressor that never fails and no destination that is a staging name, everything arrives and no staging file stays |
| EndToEnd.CountersInLockstep | libs/hbb_common/src/fs.rs:327-402 | with all messages dispatched, underway or ended, both sides have the same transfered total, and the writer's finished total is at most the reader's, equal exactly if the compressor failed on none of the chunks read |
| EndToEnd.CountersAgreeAtEnd | libs/hbb_common/src/fs.rs:327-402 | for a job ended without an error the finished totals are equal exactly if the compressor failed on no block of any source file |
| Losses.NoneLostIff | libs/hbb_common/src/fs.rs:366-402 | in every run no message of a job is a lost block exactly if the compressor failed on none of the chunks of its files read so far |
| Losses.NoneLostAtEndIff | libs/hbb_common/src/fs.rs:366-402 | for a job ended without an error, exactly if it failed on no block of any of its files |
| EndToEnd.NeverFailsNoneLost | libs/hbb_common/src/fs.rs:389-402 | with a compressor that never fails no run sends a lost block |
| WholeTransfer.SentIsOnTheWire | libs/hbb_common/src/tcp.rs:75-89 | what rounds of the multiplexer with every send taken have left on the stream is a transfer on the wire |
| WholeTransfer.MultiplexerDelivers | libs/hbb_common/src/fs.rs:305-525 | when rounds of the multiplexer have emptied the list and their bytes have arrived, each file of each job is delivered as EndToEnd.EndToEndDelivery says, whichever reads failed and writes broke; of a job nothing struck it is at its destination exactly if the compressor failed on none of its blocks and no later file is staged under its name |
| WholeTransfer.ListingJobsFit | libs/hbb_common/src/fs.rs:222-243 | the jobs made of a listing, for reading where it was made and for writing under any other root, are ones the transfer results apply to; all files are present exactly if the disk holds the listed paths |
| WholeTransfer.ListedFilesArrive | libs/hbb_common/src/fs.rs:124-525 | from a recursive listing of any tree, links to links and loops included, sent round after round, each listed file is delivered under any other root whatever fails; if nothing does it is there under its relative name exactly under the two conditions above |
| Directory.FileTree.ReadDir | libs/hbb_common/src/fs.rs:35-98 | every entry of the readable directory a path leads to once, with its type, links followed to where they end, hidden ones only on request |
| Directory.FileTree.ReadDirRecursive | libs/hbb_common/src/fs.rs:124-181 | for a path through any links, links to links and loops included: exactly once each regular file reachable from where it leads through readable real directories, none with a hidden component unless asked for, under names that resolve back to it; the file itself if it leads to one; an error for a root that is missing, unreadable or a loop |
| Directory.ListingShows | libs/hbb_common/src/fs.rs:59-65 | a listing without hidden files has exactly the entries whose name does not begin with a dot, one with them all |
| Directory.RecursiveListingShows | libs/hbb_common/src/fs.rs:124-150 | a relative path is listed exactly if it leads to a regular file through readable directories and, without hidden files, no name on it begins with a dot |
| Directory.EntryTypeIs | libs/hbb_common/src/fs.rs:66-80 | an entry is of a directory type exactly if its path leads to a directory, and of a link type exactly if it is a link |
| Directory.LinkLeadsOn | libs/hbb_common/src/fs.rs:66-70 | a link leads where its target leads, and so does every path behind it, unless that comes back to the link |
| Directory.FileTree.RemoveAllEmptyDir | libs/hbb_common/src/fs.rs:527-542 | for a path through any links at most what an exact sweep removes is removed: no regular file, and nothing outside the directory the path leads to; unless the path runs through that directory, the tree afterwards is the swept tree, with the directory kept if reached through a link; an unreadable or missing root changes nothing |
| Directory.PlainSweep | libs/hbb_common/src/fs.rs:527-542 | a directory named without links is swept as it is |
| Directory.SweepKeepsExactly | libs/hbb_common/src/fs.rs:527-542 | on a readable tree every regular file stays, every link goes, and a directory stays exactly if a file lies below it |
| Directory.SweepTwice | libs/hbb_common/src/fs.rs:527-542 | a second sweep changes nothing |
| Directory.SweepElsewhere | libs/hbb_common/src/fs.rs:527-542 | nothing outside the swept directory changes |
| Listing.RenderJoin | libs/hbb_common/src/fs.rs:138-145 | joining relative paths as `Path::join` does spells the joined path |
| Listing.ResolvedBehind | libs/hbb_common/src/fs.rs:124-150 | behind a path, whatever links it takes, the names of a listing lead down the tree |
| Listing.ListingMakesJob | libs/hbb_common/src/fs.rs:233-243 | the job of the listing of any path, relative or absolute, to a directory or a single file, has distinct file paths that lead to exactly the files wanted, and its total size is the sum over them |
| Listing.UnderAnyRoot | libs/hbb_common/src/fs.rs:222-243 | the files of a listing have distinct destinations under any root |
| Relay.TakeNext | src/main.rs:84-97 | a raw connection hands over its pending bytes in order and ends only when there are none |
| Relay.RelayTransparent | src/main.rs:69-100 | under every interleaving and chunking each side receives a prefix of what the other sent, and all of it in the direction whose end ended the loop |
| Relay.TurnProgress | src/main.rs:84-97 | a ready side with bytes pending has some passed on and the loop goes on; one with none ends it, and only a failure ends it otherwise |
| Relay.ReadyTurnsDeliver | src/main.rs:69-100 | while the loop goes on every ready turn has passed on at least a byte, so without failures more turns than bytes end it with a whole direction delivered |
| Relay.PeerAloneDelivers | src/main.rs:84-90 | when the peer alone is ready, more often than it has bytes, all of them are passed on and the loop ends |
| Relay.OpeningConsumed | src/main.rs:49-54 | a connection whose opening frame arrived in time has exactly the bytes behind that frame to hand over |
| Relay.OpeningExpired | src/main.rs:49-58 | a connection whose opening frame did not arrive in time hands over all its bytes but the head of that frame |
| Relay.FramesPassRelay | src/main.rs:49-99 | framed endpoints decode through the relay a prefix of each other's frames, and all of them in the direction whose end ended it |
| Rendezvous.RendezvousServer.HandleUdp | src/main.rs:102-129 | the id map and the reply after a datagram |
| Rendezvous.RendezvousServer.HandleConnection | src/main.rs:23-48 | what an accepted connection's first message does to the slot and which message goes where |
| Rendezvous.RendezvousServer.RelayLoop | src/main.rs:69-100 | the nested loop takes the server through the same states as the transition system, serving datagrams meanwhile |
| Rendezvous.RendezvousServer.RelaySession | src/main.rs:47-58 | accepting the two relay connections, with a failed accept ending the session |
| Rendezvous.RendezvousServer.Serve | src/main.rs:18-66 | the nested event loops end in the state the transition system defines for the events |
| Rendezvous.IdMapIsHistory | src/main.rs:108-116 | in every reachable state an id is known exactly if registered, with the address of its latest registration |
| Rendezvous.RequestGoesToLatest | src/main.rs:28-38 | a relay request goes to the address of the target's latest registration |
| Rendezvous.RegistrationsAnswered | src/main.rs:108-125 | in every run each sender has been answered exactly once for each of its registrations, of either kind, and nobody else |
| Rendezvous.SlotIsHistory | src/main.rs:30-48 | the slot holds a requester exactly if it was saved and since then none was saved or answered |
| Rendezvous.ResponseGoesToHolder | src/main.rs:40-48 | a relay response goes only to the most recent saved and unanswered requester, one whose request named a registered id |
| Rendezvous.AnsweredIff | src/main.rs:40-48 | a requester is answered at an event exactly if it holds the slot and the event is a connection whose first message, by its bytes, is a relay response |
| Rendezvous.SentIsHistory | src/main.rs:18-48 | what the server sends is, event for event, what the bytes received and its history call for, and nothing else |
| Rendezvous.PhaseIsHistory | src/main.rs:47-66 | an answered response is followed by the two relay connections and the relay; a failed accept and the end of the relay lead back to the outer loop; nothing else moves the server |
| Rendezvous.FirstMessageIff | src/main.rs:24-27 | the first message of a connection is what the frame its timely bytes begin with parses to |
| Rendezvous.AnsweredAtMostOnce | src/main.rs:40-48 | between two answered responses the requester that gets the second one was saved |
| Rendezvous.SessionsBounded | src/main.rs:40-62 | sessions never outnumber answered requesters, nor those the saved ones, and the slot is empty outside the waiting loop |
| Rendezvous.SessionIsRelay | src/main.rs:55-100 | a session, underway or ended, is its two connections relayed by its own turns alone, whatever datagrams come in between, and the server is back in its outer loop exactly if those turns ended the relay |
| Rendezvous.SessionPassesFrames | src/main.rs:49-100 | two endpoints the server has joined decode a prefix of each other's frames at every moment, and all of them in the direction whose end of stream ended the session |

## Left out

- Receiver.StagingInvariant: in a job with a destination that is another file's staging name, nothing is said of a file a broken write has spoiled; in all other jobs every file is described exactly.
- EndToEnd.NeverTorn: a destination that is another file's staging name is excluded, since it holds that file's bytes for a while; how it ends is part of `EndToEnd.EndToEndDelivery`.
- Staging.WriteBlockAt: an open file is tracked by its path, so a file another process replaces under the job is not modelled.
- Transfer.TransferJob.ModifyTime: modification times are not modelled, nor is a rename that fails although the staging file exists.
- Transfer.TransferJob.Write: `create_dir_all` is not modelled; a directory that is missing is a failed creation.
- Transfer.TransferJob.constructor: sizes, counters and file numbers are unbounded; the u64 overflow of the totals and the i32 cast of file numbers are not modelled.
- Transfer.BlocksGoAstray: after a failed flush the sender has moved on, so that more blocks of the old file come is not something a run of this program's own sender does.
- Multiplexer.SendEverything: when the rounds are called is left to the application; the loop is the simplest one.
- Directory.FileTree.ReadDirRecursive: a link's target is an absolute path without `..`; the system's bound on the number of links followed, names that are not UTF-8, Windows drives and attributes, and directories changing during the walk are not modelled.
- Directory.FileTree.RemoveAllEmptyDir: removing a link or an empty directory is taken to succeed; for a path that runs through the directory it sweeps it is stated what at least remains, not how much goes, which depends on the order of the entries.
- Listing.ListingMakesJob: listed names become strings here, not inside the listing; the root is spelled by its names, without `.`, `..` or doubled slashes.
- Relay.RelayTransparent: sends are taken to succeed; the program drops the bytes of a failed send and goes on.
- Rendezvous.RendezvousServer.Serve: connections are values the server owns, with the chunks they will deliver fixed in advance; accept errors of the main listener and UDP receive errors are skipped events.
- Channel.NonceSpells: the counter is in the machine's byte order; a little-endian machine is modelled.
- Channel.FramedStream.NextTimeout: time is the number of chunks that arrive before the wait ends.
- Channel.FramedStream.Next: the end of a TCP stream is a wait that nothing more arrives in; an error of the framed reader at the end of a stream with bytes left over is not modelled.
- Which application dispatches received messages is not part of this repository; `Receiver.DispatchAll` is `get_job`, `write` and `modify_time` in the order of arrival.
- `remove_download_file`, `set_files` and the other getters and setters of `TransferJob`, and the message constructors `new_error` to `new_done`: one-step members.
- `quic.rs`, `udp.rs`, `config.rs`, socket creation, the build and version helpers: plumbing without protocol state.
- zstd, libsodium and protobuf are functions with the round trips above as preconditions.
