/** A transfer from the listing of a directory to the files at the other end, as the multiplexer sends it in place. */
module WholeTransfer {
  import opened Octets
  import opened Codec
  import opened Channel
  import opened Compression
  import opened Transfer
  import opened JobLog
  import opened ReadJobs
  import opened Progress
  import opened Multiplexer
  import opened Staging
  import opened Receiver
  import opened EndToEnd
  import opened Listing

  /** Sends that are all taken send only what fits a frame. */
  lemma {:induction false} TakenIsSendable(cipher: Cipher, e: Endpoint, msgs: seq<Bytes>)
    requires SendMany(cipher, e, msgs).ok && !e.codec.raw
    ensures Sendable(SealAll(cipher, e.session, msgs), MAX_PAYLOAD)
    decreases msgs
  {
    hide EncodeFrame, SealMessage;
    if msgs != [] {
      TakenIsSendable(cipher, Send(cipher, e, msgs[0]).endpoint, msgs[1..]);
    }
  }

  /** The receiving end of a fresh connection, in step with the sender, with at least the default limit. */
  ghost predicate Awaits(sender: Endpoint, e: Endpoint) {
    && InStep(sender.session, e.session) && !sender.codec.raw && !e.codec.raw
    && e.codec.state == Head && e.buf == [] && e.codec.maxPacketLength >= MAX_PAYLOAD
  }

  /** What `SendEverything` leaves on the stream is a transfer on the wire. */
  lemma SentIsOnTheWire(stream: FramedStream, format: Format, sender: Endpoint, out: Bytes, e: Endpoint,
                        log: seq<Msg>, chunks: seq<Bytes>)
    requires Faithful(stream.cipher) && Parseable(format) && Awaits(sender, e)
    requires SentSoFar(stream, format, sender, out, log) && AllTaken(stream.cipher, format, sender, log)
    requires out + Concat(chunks) == stream.tcp.outbound
    ensures OnTheWire(stream.cipher, format, sender, e, log, chunks, [])
  {
    hide SendMany, SealAll, Concat, Faithful, Parseable, InStep;
    var msgs := SerializeAll(format, log);
    var wire := SendMany(stream.cipher, sender, msgs).wire;
    TakenIsSendable(stream.cipher, sender, msgs);
    assert Concat(chunks) == (out + Concat(chunks))[|out|..] == (out + wire)[|out|..] == wire;
    assert Concat(chunks) + [] == Concat(chunks);
  }

  /** Main result, from the calls to the files: when rounds of `handle_read_jobs` have emptied the list with every
      send taken, and the bytes they wrote have arrived, in whatever chunks, each file of each job is
      `Delivered`, whichever reads failed and whichever writes broke. Of a job that nothing struck, it
      is at its destination exactly if the compressor failed on none of its blocks and no later file of
      the job is staged under its name. */
  lemma MultiplexerDelivers(z: Zstd, stream: FramedStream, format: Format, src: Disk, readers: seq<Job>,
                            rounds: seq<Faults>, sender: Endpoint, out: Bytes, e: Endpoint, chunks: seq<Bytes>, n: nat,
                            writers: seq<Job>, disk0: Disk, faults: WriteFaults, k: nat, i: nat)
    requires Restores(z) && FreshJobs(readers) && FreshReceivers(writers) && Matched(readers, writers)
    requires Faithful(stream.cipher) && Parseable(format) && Awaits(sender, e)
    requires var end := RunRounds(z, src, SendState(readers, []), rounds);
             && end.jobs == []
             && SentSoFar(stream, format, sender, out, end.log) && AllTaken(stream.cipher, format, sender, end.log)
             && n >= |end.log|
    requires out + Concat(chunks) == stream.tcp.outbound
    requires k < |writers| && i < |writers[k].files|
    ensures var log := Mine(RunRounds(z, src, SendState(readers, []), rounds).log, readers[k].id);
            var msgs := Arrived(stream.cipher, format, e, chunks, n);
            var disk := DispatchAll(z, RecvState(writers, disk0), msgs, faults).disk;
            Delivered(z, src, readers[k], log, writers[k], disk0, disk, EventsFor(writers[k], msgs, faults), i)
    ensures faults == NO_FAULTS && AllPresent(src, readers[k]) && (forall f <- rounds :: readers[k].id !in f) ==>
              var msgs := Arrived(stream.cipher, format, e, chunks, n);
              var disk := DispatchAll(z, RecvState(writers, disk0), msgs, faults).disk;
              var w0, content := writers[k], src[FinalPath(readers[k], i)];
              && (At(disk, FinalPath(w0, i)) == Some(content)
                  <==> NoBlockLost(z, w0.files[i].name, content)
                       && forall l | i < l < |w0.files| :: Staged(FinalPath(w0, l)) != FinalPath(w0, i))
              && (NeverFinal(w0, i) ==> Staged(FinalPath(w0, i)) !in disk)
  {
    hide OnTheWire, RunRounds, FreshReceivers, FreshJobs, Arrived, DispatchAll, Join, RestRounds, NO_FAULTS,
         NoBlockLost, SentSoFar, AllTaken, Faithful, Parseable, Awaits, Concat, Dones, Mine, At, Delivered,
         AllPresent;
    var log := RunRounds(z, src, SendState(readers, []), rounds).log;
    SentIsOnTheWire(stream, format, sender, out, e, log, chunks);
    EndToEndDelivery(z, stream.cipher, format, src, readers, rounds, sender, e, chunks, n, writers, disk0, faults, k,
      i);
    if faults == NO_FAULTS && AllPresent(src, readers[k]) && forall f <- rounds :: readers[k].id !in f {
      MultiplexerTerminates(z, src, readers, rounds, k);
      FaultFreeDelivery(z, stream.cipher, format, src, readers, rounds, sender, e, chunks, n, writers, disk0, k, i);
    }
  }

  // ---------------------------------------------------------------------------------------
  // From a listing

  /** The disk holds what a job of the listing reads. */
  ghost predicate Backs(src: Disk, absolute: bool, path: D.Path, files: seq<D.Listed>) {
    forall k | 0 <= k < |files| :: RootString(absolute, path + files[k].name) in src
  }

  /** The job made of a listing under a root: where the listing was made to read, anywhere else to write. */
  ghost function JobUnder(absolute: bool, root: D.Path, files: seq<D.Listed>, id: int): Job {
    NewJob(id, RootString(absolute, root), Entries(files))
  }

  /** The jobs made of a listing, for reading where it was made and for writing anywhere, fit together. */
  lemma ListingJobsFit(t: D.Tree, absolute: bool, path: D.Path, hidden: bool, files: seq<D.Listed>, id: int,
                       absolute': bool, root: D.Path)
    requires D.WellFormed(t) && NamedTree(t) && AreNames(path) && (absolute || path != [])
    requires D.IsRecursiveListing(t, D.Resolved(t, path), [], hidden, Some(files))
    requires AreNames(root) && (absolute' || root != [])
    ensures var readers, writers := [JobUnder(absolute, path, files, id)], [JobUnder(absolute', root, files, id)];
            && FreshJobs(readers) && FreshReceivers(writers) && Matched(readers, writers)
            && |files| == |readers[0].files|
            && (forall src :: AllPresent(src, readers[0]) <==> Backs(src, absolute, path, files))
            && forall k | 0 <= k < |files| ::
                 && FinalPath(readers[0], k) == RootString(absolute, path + files[k].name)
                 && FinalPath(writers[0], k) == RootString(absolute', root + files[k].name)
  {
    hide D.WellFormed, D.Resolved, D.IsRecursiveListing, RootString, DistinctFinals, TotalSize, D.Wanted, SizeOf, Join,
         Entries, AreNames, FreshJobs, FreshReceivers, Matched;
    ListingMakesJob(t, absolute, path, hidden, files, id);
    UnderAnyRoot(absolute', root, files, id);
    SinglesFit(JobUnder(absolute, path, files, id), JobUnder(absolute', root, files, id));
  }

  lemma SinglesFit(reader: Job, writer: Job)
    requires reader == NewJob(reader.id, reader.path, reader.files)
    requires writer == NewJob(writer.id, writer.path, writer.files) && DistinctFinals(writer)
    requires reader.id == writer.id && reader.files == writer.files
    ensures FreshJobs([reader]) && FreshReceivers([writer]) && Matched([reader], [writer])
  {
    hide DistinctFinals, TotalSize;
  }

  /** Main result, from the tree to the other end: of the job of a recursive listing, sent round after round to a
      receiving job under any other root, each listed file is `Delivered`, whatever fails; and if
      nothing does and the files are where they were listed, it is there under its relative name
      exactly if the compressor failed on none of its blocks and no later name is its staging name. */
  lemma ListedFilesArrive(t: D.Tree, absolute: bool, path: D.Path, hidden: bool, files: seq<D.Listed>, id: int,
                          absolute': bool, root: D.Path, z: Zstd, stream: FramedStream, format: Format, src: Disk,
                          rounds: seq<Faults>, sender: Endpoint, out: Bytes, e: Endpoint, chunks: seq<Bytes>, n: nat,
                          disk0: Disk, faults: WriteFaults, i: nat)
    requires D.WellFormed(t) && NamedTree(t) && AreNames(path) && (absolute || path != [])
    requires D.IsRecursiveListing(t, D.Resolved(t, path), [], hidden, Some(files))
    requires AreNames(root) && (absolute' || root != [])
    requires Restores(z) && Faithful(stream.cipher) && Parseable(format) && Awaits(sender, e)
    requires var end := RunRounds(z, src, SendState([JobUnder(absolute, path, files, id)], []), rounds);
             && end.jobs == []
             && SentSoFar(stream, format, sender, out, end.log) && AllTaken(stream.cipher, format, sender, end.log)
             && n >= |end.log|
    requires out + Concat(chunks) == stream.tcp.outbound && i < |files|
    ensures var reader, writer := JobUnder(absolute, path, files, id), JobUnder(absolute', root, files, id);
            var log := Mine(RunRounds(z, src, SendState([reader], []), rounds).log, id);
            var msgs := Arrived(stream.cipher, format, e, chunks, n);
            var disk := DispatchAll(z, RecvState([writer], disk0), msgs, faults).disk;
            Delivered(z, src, reader, log, writer, disk0, disk, EventsFor(writer, msgs, faults), i)
    ensures faults == NO_FAULTS && Backs(src, absolute, path, files) && (forall f <- rounds :: id !in f) ==>
              var msgs := Arrived(stream.cipher, format, e, chunks, n);
              var disk := DispatchAll(z, RecvState([JobUnder(absolute', root, files, id)], disk0), msgs, faults).disk;
              var content := src[RootString(absolute, path + files[i].name)];
              var dest := RootString(absolute', root + files[i].name);
              At(disk, dest) == Some(content)
              <==> NoBlockLost(z, Render(files[i].name), content)
                   && forall l | i < l < |files| :: Staged(RootString(absolute', root + files[l].name)) != dest
  {
    hide D.WellFormed, D.Resolved, D.IsRecursiveListing, RootString, DistinctFinals, TotalSize, D.Wanted, Join,
         AreNames, FreshJobs, FreshReceivers, Matched, RunRounds, SentSoFar, AllTaken, Arrived, DispatchAll,
         NoBlockLost, Faithful, Parseable, Awaits, Concat, NamedTree, Restores, NO_FAULTS, Render, Staged, At,
         Delivered, AllPresent, Mine;
    ListingJobsFit(t, absolute, path, hidden, files, id, absolute', root);
    MultiplexerDelivers(z, stream, format, src, [JobUnder(absolute, path, files, id)], rounds, sender, out, e, chunks,
      n, [JobUnder(absolute', root, files, id)], disk0, faults, 0, i);
  }
}
