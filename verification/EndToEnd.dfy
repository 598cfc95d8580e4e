/** The transfer from end to end: reading jobs multiplexed by `handle_read_jobs`, their messages sealed
    and framed onto a TCP stream, the stream cut anyhow, and what arrives dispatched to writing jobs. */
module EndToEnd {
  import opened Octets
  import opened Codec
  import opened Channel
  import opened Compression
  import opened Transfer
  import opened JobLog
  import opened Reader
  import opened ReadJobs
  import opened Progress
  import opened Losses
  import opened Staging
  import opened Landing
  import opened Receiver

  /** The messages among what arrives; anything else is skipped. */
  function ParseAll(format: Format, data: seq<Bytes>): seq<Msg> {
    if data == [] then []
    else
      (match format.parse(data[0]) case Some(m) => [m] case None => []) + ParseAll(format, data[1..])
  }

  lemma {:induction false} ParsePrefix(format: Format, log: seq<Msg>, data: seq<Bytes>)
    requires Parseable(format) && data <= SerializeAll(format, log)
    ensures ParseAll(format, data) == log[..|data|]
    decreases log
  {
    if data != [] {
      assert data[0] == format.serialize(log[0]);
      assert data[1..] <= SerializeAll(format, log[1..]);
      ParsePrefix(format, log[1..], data[1..]);
      assert log[..|data|] == [log[0]] + log[1..][..|data| - 1];
    }
  }

  // ---------------------------------------------------------------------------------------
  // The sender's log is one the receiver handles

  /** Job for job, the same id and the same files; the directories may differ. */
  ghost predicate Matched(readers: seq<Job>, writers: seq<Job>) {
    && |readers| == |writers|
    && forall k | 0 <= k < |readers| :: readers[k].id == writers[k].id && readers[k].files == writers[k].files
  }

  lemma SenderLogWellFormed(z: Zstd, src: Disk, readers: seq<Job>, writers: seq<Job>, rounds: seq<Faults>)
    requires Restores(z) && FreshJobs(readers) && Matched(readers, writers)
    ensures WellFormedLog(writers, RunRounds(z, src, SendState(readers, []), rounds).log)
  {
    hide RunRounds, Mine, InOrder, Dones, GetJob, Outcome, InProgress;
    var end := RunRounds(z, src, SendState(readers, []), rounds);
    forall k | 0 <= k < |writers|
      ensures InOrder(Mine(end.log, writers[k].id), |writers[k].files|) && Dones(Mine(end.log, writers[k].id)) <= 1
    {
      RunTracksEveryJob(z, src, readers, rounds, k);
      if GetJob(readers[k].id, end.jobs).Some? {
        assert ReaderInv(z, src, readers[k], GetJob(readers[k].id, end.jobs).value, Mine(end.log, readers[k].id));
      }
    }
  }

  lemma {:induction false} WellFormedFront(writers: seq<Job>, msgs: seq<Msg>, n: nat)
    requires WellFormedLog(writers, msgs) && n <= |msgs|
    ensures WellFormedLog(writers, msgs[..n])
    decreases |msgs| - n
  {
    hide WellFormedLog;
    if n == |msgs| {
      assert msgs[..n] == msgs;
    } else {
      WellFormedFront(writers, msgs, n + 1);
      assert msgs[..n + 1] == msgs[..n] + [msgs[n]];
      WellFormedPrefix(writers, msgs[..n], msgs[n]);
    }
  }

  // ---------------------------------------------------------------------------------------
  // No torn files

  lemma {:induction false} LaterBlocksElsewhere(z: Zstd, p: seq<Msg>, q: seq<Msg>, i: int)
    requires forall m <- q | m.MBlock? :: m.block.fileNum != i
    ensures BytesFor(z, p + q, i) == BytesFor(z, p, i)
    ensures HasBlock(p + q, i) == HasBlock(p, i)
    decreases |q|
  {
    hide BytesFor, HasBlock, Payload;
    if q == [] {
      assert p + q == p;
    } else {
      var n := |q| - 1;
      LaterBlocksElsewhere(z, p, q[..n], i);
      assert p + q == (p + q[..n]) + [q[n]];
      LogSnoc(z, p + q[..n], q[n], i);
      assert q[n] in q;
      assert BytesFor(z, p, i) + [] == BytesFor(z, p, i);
    }
  }

  /** Once a later file's block has come, or the end of the job, a file has all the bytes the sender will ever send
      for it. */
  lemma PassedIsAll(z: Zstd, p: seq<Msg>, q: seq<Msg>, n: nat, i: nat)
    requires InOrder(p + q, n) && HasBlock(p, i) && (Dones(p) > 0 || Passed(p, i))
    ensures BytesFor(z, p + q, i) == BytesFor(z, p, i) && HasBlock(p + q, i)
    ensures Dones(p) > 0 || exists m <- p + q :: m.MBlock? && m.block.fileNum > i
  {
    hide BytesFor, Dones;
    var all := p + q;
    var a: nat;
    if Dones(p) > 0 {
      a := SomeDone(p);
    } else {
      var y :| y in p && y.MBlock? && y.block.fileNum > i;
      a :| 0 <= a < |p| && p[a] == y;
      assert all[a] in all;
    }
    assert all[a] == p[a];
    forall m <- q | m.MBlock? ensures m.block.fileNum != i {
      var b :| 0 <= b < |q| && q[b] == m;
      assert all[|p| + b] == m;
    }
    LaterBlocksElsewhere(z, p, q, i);
  }

  lemma LaterBlock(w0: Job, w: Job, disk: Disk, p: seq<Msg>, spoiled: set<int>, i: nat)
    requires Cursor(w0, w, disk, p, spoiled) && Dones(p) == 0
    requires HasBlock(p, i) && !IsCurrent(w, p, i) && i !in spoiled
    ensures Passed(p, i)
  {
    hide Dones, HandleInPlace;
    var x :| x in p && IsBlockOf(x, i);
    assert AnyBlock(p);
    var y :| y in p && IsBlockOf(y, w.fileNum);
  }

  /** What the sender's side can have made of a file: an outcome the sender has recorded. */
  lemma SettledWhenPassed(z: Zstd, src: Disk, r0: Job, s: SendState, i: nat)
    requires Tracked(z, src, r0, s) && i < |r0.files|
    requires Dones(Mine(s.log, r0.id)) > 0 || exists m <- Mine(s.log, r0.id) :: m.MBlock? && m.block.fileNum > i
    ensures Outcome(z, src, r0, Mine(s.log, r0.id), i)
  {
    hide Mine, InOrder, Outcome, InProgress, PayloadTotal, DataTotal, GetJob, Dones;
  }

  /** The final path of a file holds what it held before; or the staging file left over from before, for file 0 and
      a file that could not be created; or all that the blocks of its source carry; or, if the file
      hit a read error, possibly what the first of them carry. */
  ghost predicate NotTorn(z: Zstd, src: Disk, r0: Job, log: seq<Msg>, w0: Job, disk0: Disk, disk: Disk,
                          events: seq<Event>, i: nat)
    requires i < |r0.files| == |w0.files|
  {
    var source, name, path := FinalPath(r0, i), r0.files[i].name, FinalPath(w0, i);
    var dest := At(disk, path);
    || dest == At(disk0, path)
    || ((i == 0 || Missed(events, i)) && Staged(path) in disk0 && dest == Some(disk0[Staged(path)]))
    || (source in src && dest == Some(Carried(z, name, src[source])))
    || (MError(r0.id, ReadFailed, i + 1) in log && source in src && dest.Some?
        && CarriesSome(z, name, src[source], dest.value))
  }

  /** No broken write has kept bytes of the file from it, or led others to it. */
  ghost predicate Intact(z: Zstd, w0: Job, events: seq<Event>, i: nat) {
    || i !in SpoiledBy(events)
    || (NoStagingClash(w0) && Whole(z, events, i) && StrayBytes(z, events, i) == []
        && (HasBlock(Messages(events), i) ==> Begun(events, i)))
  }

  lemma NotTornFile(z: Zstd, src: Disk, r0: Job, s: SendState, w0: Job, disk0: Disk, w: Job, disk: Disk,
                    events: seq<Event>, q: seq<Msg>, i: nat)
    requires Tracked(z, src, r0, s) && Mine(s.log, r0.id) == Messages(events) + q
    requires r0.files == w0.files && i < |w0.files| && NeverStaged(w0, i) && Intact(z, w0, events, i)
    requires w0.fileNum == 0 && DistinctFinals(w0)
    requires InOrder(Messages(events) + q, |w0.files|) && JobInv(z, w0, disk0, w, disk, events)
    ensures NotTorn(z, src, r0, Mine(s.log, r0.id), w0, disk0, disk, events, i)
  {
    hide Mine, Tracked, InOrder, BytesFor, Dones, Join, WriterInv, ExactInv, Messages, NotTorn, Whole, Begun, Missed,
         StrayBytes, NoStagingClash, SpoiledBy, NeverStaged;
    if i !in SpoiledBy(events) {
      NotTornUnspoiled(z, src, r0, s, w0, disk0, w, disk, events, q, i);
    } else {
      NotTornExact(z, src, r0, s, w0, disk0, w, disk, events, q, i);
    }
  }

  lemma NotTornUnspoiled(z: Zstd, src: Disk, r0: Job, s: SendState, w0: Job, disk0: Disk, w: Job, disk: Disk,
                         events: seq<Event>, q: seq<Msg>, i: nat)
    requires Tracked(z, src, r0, s) && Mine(s.log, r0.id) == Messages(events) + q
    requires r0.files == w0.files && i < |w0.files| && NeverStaged(w0, i) && i !in SpoiledBy(events)
    requires w0.fileNum == 0 && DistinctFinals(w0)
    requires InOrder(Messages(events) + q, |w0.files|)
    requires WriterInv(z, w0, disk0, w, disk, Messages(events), SpoiledBy(events))
    ensures NotTorn(z, src, r0, Mine(s.log, r0.id), w0, disk0, disk, events, i)
  {
    hide Mine, Tracked, InOrder, Publish, BytesFor, CountsReceived, Dones, Join, Carried, CarriesSome,
         NeverFinal, SameOn, Cursor, InPlace, Messages, SpoiledBy, Missed;
    var p := Messages(events);
    assert FileState(z, w0, disk0, w, disk, p, SpoiledBy(events), i);
    NeverOverwritten(w0, p, i);
    PublishAt(w0, disk0, FinalPath(w0, i));
    if HasBlock(p, i) && !IsCurrent(w, p, i) {
      if Dones(p) == 0 { LaterBlock(w0, w, disk, p, SpoiledBy(events), i); }
      PassedIsAll(z, p, q, |w0.files|, i);
      DonesGrow(p, q);
      SettledWhenPassed(z, src, r0, s, i);
    }
  }

  lemma NotTornExact(z: Zstd, src: Disk, r0: Job, s: SendState, w0: Job, disk0: Disk, w: Job, disk: Disk,
                     events: seq<Event>, q: seq<Msg>, i: nat)
    requires Tracked(z, src, r0, s) && Mine(s.log, r0.id) == Messages(events) + q
    requires r0.files == w0.files && i < |w0.files|
    requires Whole(z, events, i) && StrayBytes(z, events, i) == []
    requires InOrder(Messages(events) + q, |w0.files|) && ExactInv(z, w0, disk0, w, disk, events)
    ensures NotTorn(z, src, r0, Mine(s.log, r0.id), w0, disk0, disk, events, i)
  {
    hide Mine, Tracked, InOrder, BytesFor, Dones, Join, Carried, CarriesSome, Messages, Missed, Begun, Landed, Whole,
         Published, StrayBytes, Tracks, StandAfter;
    var p := Messages(events);
    InOrderPart(p, q, |w0.files|);
    assert Placed(z, w0, disk0, disk, events, i);
    CompleteIff(z, events, |w0.files|, i);
    if Begun(events, i) && !InWriting(events, i) {
      CoherentAlways(events, |w0.files|);
      LeftIsPassed(events, |w0.files|, i);
      PassedIsAll(z, p, q, |w0.files|, i);
      DonesGrow(p, q);
      SettledWhenPassed(z, src, r0, s, i);
    } else {
      PromotedIsMissed(events, |w0.files|, i);
    }
  }

  lemma InOrderPart(p: seq<Msg>, q: seq<Msg>, n: nat)
    requires InOrder(p + q, n)
    ensures InOrder(p, n)
  {
    assert forall a | 0 <= a < |p| :: (p + q)[a] == p[a];
  }

  lemma NeverOverwritten(w0: Job, log: seq<Msg>, i: nat)
    requires i < |w0.files| && NeverStaged(w0, i)
    ensures !Overwritten(w0, log, {}, i)
  {
  }

  /** If the compressor failed on no block, what arrives of a file cut short is a prefix of it. */
  lemma CutShortIsPrefix(z: Zstd, name: string, content: Bytes, bytes: Bytes)
    requires CarriesSome(z, name, content, bytes) && NoBlockLost(z, name, content)
    ensures bytes <= content
  {
    hide CarriedBlocks, Survives, BlockCount;
    var n: nat :| n <= BlockCount(|content|) && bytes == CarriedBlocks(z, name, content, n);
    CarriedPrefix(z, name, content, n);
  }

  lemma {:induction false} DonesGrow(p: seq<Msg>, q: seq<Msg>)
    ensures Dones(p + q) >= Dones(p)
    decreases |q|
  {
    if q == [] {
      assert p + q == p;
    } else {
      DonesGrow(p, q[..|q| - 1]);
      assert p + q == (p + q[..|q| - 1]) + [q[|q| - 1]];
      DonesSnoc(p + q[..|q| - 1], q[|q| - 1]);
    }
  }

  // ---------------------------------------------------------------------------------------
  // The whole path

  /** A transfer on the wire: `rounds` rounds have been sent; `chunks` is what has arrived of them, and
      `missing` what has not. */
  ghost predicate OnTheWire(cipher: Cipher, format: Format, sender: Endpoint, e: Endpoint,
                            log: seq<Msg>, chunks: seq<Bytes>, missing: Bytes) {
    var msgs := SerializeAll(format, log);
    && Faithful(cipher) && Parseable(format) && InStep(sender.session, e.session)
    && !sender.codec.raw && !e.codec.raw && e.codec.state == Head && e.buf == []
    && Sendable(SealAll(cipher, sender.session, msgs), e.codec.maxPacketLength)
    && Concat(chunks) + missing == SendMany(cipher, sender, msgs).wire
  }

  /** What the receiver has dispatched after `n` calls for the next message. */
  ghost function Arrived(cipher: Cipher, format: Format, e: Endpoint, chunks: seq<Bytes>, n: nat): seq<Msg> {
    ParseAll(format, ReceiveMany(cipher, e, chunks, n).messages)
  }

  lemma ArrivedIsPrefix(cipher: Cipher, format: Format, sender: Endpoint, e: Endpoint,
                        log: seq<Msg>, chunks: seq<Bytes>, missing: Bytes, n: nat)
    requires OnTheWire(cipher, format, sender, e, log, chunks, missing)
    ensures var msgs := Arrived(cipher, format, e, chunks, n);
            msgs <= log && (missing == [] && n >= |log| ==> msgs == log)
  {
    hide SealAll, SendMany, ReceiveMany, Concat, InStep, ParseAll;
    var msgs := SerializeAll(format, log);
    ChannelDelivers(cipher, sender, e, msgs, chunks, missing, n);
    ParsePrefix(format, log, ReceiveMany(cipher, e, chunks, n).messages);
    assert log[..|log|] == log;
  }

  /** What a job has been told of `msgs`, with the faults of its writes. */
  ghost function EventsFor(w0: Job, msgs: seq<Msg>, faults: WriteFaults): seq<Event> {
    EventsOf(msgs, faults, w0.id)
  }

  /** Main result, at every moment of a transfer: whatever part of the stream has arrived, in whatever
      chunks, however the jobs interleave, whichever opens failed and whichever writes broke, no
      destination file the broken writes left intact is ever torn: it holds what it held before, or a
      staging file left over from before, or all its source's blocks carry, unless its source hit a
      read error. And every file, intact or not, of a job none of whose destinations is a staging
      name has exactly the content its messages and their faults say. The one condition is that no
      file of the job is staged under this file's name. */
  lemma NeverTorn(z: Zstd, cipher: Cipher, format: Format, src: Disk, readers: seq<Job>, rounds: seq<Faults>,
                  sender: Endpoint, e: Endpoint, chunks: seq<Bytes>, missing: Bytes, n: nat,
                  writers: seq<Job>, disk0: Disk, faults: WriteFaults, k: nat, i: nat)
    requires Restores(z) && FreshJobs(readers) && FreshReceivers(writers) && Matched(readers, writers)
    requires OnTheWire(cipher, format, sender, e, RunRounds(z, src, SendState(readers, []), rounds).log, chunks,
                       missing)
    requires k < |writers| && i < |writers[k].files| && NeverStaged(writers[k], i)
    ensures var log := RunRounds(z, src, SendState(readers, []), rounds).log;
            var msgs := Arrived(cipher, format, e, chunks, n);
            var disk := DispatchAll(z, RecvState(writers, disk0), msgs, faults).disk;
            var events := EventsFor(writers[k], msgs, faults);
            && (Intact(z, writers[k], events, i) ==>
                  NotTorn(z, src, readers[k], Mine(log, readers[k].id), writers[k], disk0, disk, events, i))
            && (NoStagingClash(writers[k]) ==> Placed(z, writers[k], disk0, disk, events, i))
  {
    hide OnTheWire, RunRounds, FreshJobs, FreshReceivers, Arrived, DispatchAll, Mine, InOrder, NotTorn, WriterInv,
         Tracked, NeverStaged, EventsOf, Intact, Placed, NoStagingClash, Messages, SpoiledBy, StandAfter;
    var end := RunRounds(z, src, SendState(readers, []), rounds);
    var log := end.log;
    var msgs := Arrived(cipher, format, e, chunks, n);
    ArrivedIsPrefix(cipher, format, sender, e, log, chunks, missing, n);
    SenderLogWellFormed(z, src, readers, writers, rounds);
    WellFormedFront(writers, log, |msgs|);
    assert msgs == log[..|msgs|] && log == msgs + log[|msgs|..];
    StagingInvariant(z, writers, disk0, msgs, faults);
    RunTracksEveryJob(z, src, readers, rounds, k);
    MineAppend(msgs, log[|msgs|..], readers[k].id);
    EventsAreMine(msgs, faults, readers[k].id);
    FreshWriter(writers, k);
    var s := DispatchAll(z, RecvState(writers, disk0), msgs, faults);
    if Intact(z, writers[k], EventsFor(writers[k], msgs, faults), i) {
      NotTornFile(z, src, readers[k], end, writers[k], disk0, s.jobs[k], s.disk, EventsFor(writers[k], msgs, faults),
        Mine(log[|msgs|..], readers[k].id), i);
    }
  }

  lemma FreshWriter(writers: seq<Job>, k: nat)
    requires FreshReceivers(writers) && k < |writers|
    ensures writers[k].fileNum == 0 && DistinctFinals(writers[k])
  {
    assert writers[k] == NewJob(writers[k].id, writers[k].path, writers[k].files);
  }

  /** Without a staging file of its own left over from before, a file that is not torn is as it was, complete or
      cut short by a read error. */
  lemma NotTornCleanStart(z: Zstd, src: Disk, r0: Job, log: seq<Msg>, w0: Job, disk0: Disk, disk: Disk,
                          events: seq<Event>, i: nat)
    requires i < |r0.files| == |w0.files| && Staged(FinalPath(w0, i)) !in disk0
    requires NotTorn(z, src, r0, log, w0, disk0, disk, events, i)
    ensures var dest := At(disk, FinalPath(w0, i));
            || dest == At(disk0, FinalPath(w0, i))
            || (FinalPath(r0, i) in src
                && dest == Some(Carried(z, r0.files[i].name, src[FinalPath(r0, i)])))
            || (MError(r0.id, ReadFailed, i + 1) in log && FinalPath(r0, i) in src && dest.Some?
                && CarriesSome(z, r0.files[i].name, src[FinalPath(r0, i)], dest.value))
  {
  }

  /** How a file that no broken write has harmed ends up. A file the sender closed is at its destination as far as its
      blocks carry it, which is byte for byte exactly if the compressor failed on none of them,
      unless a later file was staged under its name, which takes it away; a file that never opened
      is as the receiver had it, or, if it is file 0, the staging file left over from before; and a
      file cut short by a read error holds what its first blocks carry. */
  ghost predicate Arrives(z: Zstd, src: Disk, r0: Job, log: seq<Msg>, w0: Job, disk0: Disk, disk: Disk,
                          spoiled: set<int>, i: nat)
    requires i < |r0.files| == |w0.files|
  {
    var source, dest, name := FinalPath(r0, i), FinalPath(w0, i), r0.files[i].name;
    && (HasBlock(log, i) && NeverFinal(w0, i) ==> Staged(dest) !in disk)
    && (HasBlock(log, i) && Overwritten(w0, log, spoiled, i) ==> dest !in disk)
    && if Closing(r0.id, i) in log then
         && source in src
         && (!Overwritten(w0, log, {}, i) ==>
               && At(disk, dest) == Some(Carried(z, name, src[source]))
               && (At(disk, dest) == Some(src[source]) <==> NoBlockLost(z, name, src[source])))
       else if !HasBlock(log, i) then
         NeverStaged(w0, i) ==>
           At(disk, dest) == if i == 0 && Staged(dest) in disk0 then Some(disk0[Staged(dest)]) else At(disk0, dest)
       else
         && MError(r0.id, ReadFailed, i + 1) in log && source in src
         && (!Overwritten(w0, log, {}, i) ==>
               At(disk, dest).Some? && CarriesSome(z, name, src[source], At(disk, dest).value))
  }

  /** How any file ends up: as above if intact; in a job none of whose destinations is a staging name, exactly as its
      messages and their faults say, so that a closed and begun file to which nothing went astray is
      its source exactly if each of its blocks was added whole and none lost to the compressor. */
  ghost predicate Delivered(z: Zstd, src: Disk, r0: Job, log: seq<Msg>, w0: Job, disk0: Disk, disk: Disk,
                            events: seq<Event>, i: nat)
    requires i < |r0.files| == |w0.files|
  {
    && (Intact(z, w0, events, i) ==> Arrives(z, src, r0, log, w0, disk0, disk, SpoiledBy(events), i))
    && (NoStagingClash(w0) ==> EndsAs(z, w0, disk0, disk, events, i))
    && (NoStagingClash(w0) && Closing(r0.id, i) in log && Begun(events, i) && StrayBytes(z, events, i) == [] ==>
          && FinalPath(r0, i) in src
          && (At(disk, FinalPath(w0, i)) == Some(src[FinalPath(r0, i)])
              <==> Whole(z, events, i) && NoBlockLost(z, r0.files[i].name, src[FinalPath(r0, i)])))
  }

  /** Main result, at the end of a transfer, whatever failed on either side: once a job is done and everything has
      arrived, each of its files is `Delivered`. */
  lemma EndToEndDelivery(z: Zstd, cipher: Cipher, format: Format, src: Disk, readers: seq<Job>, rounds: seq<Faults>,
                         sender: Endpoint, e: Endpoint, chunks: seq<Bytes>, n: nat,
                         writers: seq<Job>, disk0: Disk, faults: WriteFaults, k: nat, i: nat)
    requires Restores(z) && FreshJobs(readers) && FreshReceivers(writers) && Matched(readers, writers)
    requires OnTheWire(cipher, format, sender, e, RunRounds(z, src, SendState(readers, []), rounds).log, chunks, [])
    requires n >= |RunRounds(z, src, SendState(readers, []), rounds).log|
    requires k < |writers| && i < |writers[k].files|
    requires GetJob(readers[k].id, RunRounds(z, src, SendState(readers, []), rounds).jobs).None?
    ensures var log := Mine(RunRounds(z, src, SendState(readers, []), rounds).log, readers[k].id);
            var msgs := Arrived(cipher, format, e, chunks, n);
            var disk := DispatchAll(z, RecvState(writers, disk0), msgs, faults).disk;
            Delivered(z, src, readers[k], log, writers[k], disk0, disk, EventsFor(writers[k], msgs, faults), i)
  {
    hide OnTheWire, RunRounds, FreshJobs, FreshReceivers, Arrived, DispatchAll, Mine, InOrder, JobInv, GetJob,
         Join, Dones, ReaderInv, Outcome, Delivered, EventsOf, Messages;
    var end := RunRounds(z, src, SendState(readers, []), rounds);
    var id := readers[k].id;
    ArrivedIsPrefix(cipher, format, sender, e, end.log, chunks, [], n);
    SenderLogWellFormed(z, src, readers, writers, rounds);
    StagingInvariant(z, writers, disk0, end.log, faults);
    RunTracksEveryJob(z, src, readers, rounds, k);
    assert Completed(z, src, readers[k], Mine(end.log, id));
    assert Outcome(z, src, readers[k], Mine(end.log, id), i);
    EventsAreMine(end.log, faults, id);
    FreshWriter(writers, k);
    var s := DispatchAll(z, RecvState(writers, disk0), end.log, faults);
    OutcomeIsDelivered(z, src, readers[k], writers[k], disk0, s.jobs[k], s.disk, EventsFor(writers[k], end.log, faults),
      i);
  }

  lemma OutcomeIsDelivered(z: Zstd, src: Disk, r0: Job, w0: Job, disk0: Disk, w: Job, disk: Disk,
                           events: seq<Event>, i: nat)
    requires i < |r0.files| == |w0.files| && Outcome(z, src, r0, Messages(events), i)
    requires JobInv(z, w0, disk0, w, disk, events) && w0.fileNum == 0 && DistinctFinals(w0)
    requires InOrder(Messages(events), |w0.files|) && Dones(Messages(events)) > 0
    ensures Delivered(z, src, r0, Messages(events), w0, disk0, disk, events, i)
  {
    hide Join, BytesFor, Outcome, Messages, InOrder, Dones, Begun, Whole, StrayBytes, SpoiledBy, WriterInv, ExactInv,
         NoStagingClash, Arrives, EndsAs, NoBlockLost, Publish, PublishedState;
    var log := Messages(events);
    if i !in SpoiledBy(events) {
      EndPublishesAll(z, w0, disk0, w, disk, log, SpoiledBy(events), i);
      PublishedArrives(z, src, r0, log, w0, disk0, disk, SpoiledBy(events), i);
    }
    if NoStagingClash(w0) {
      EndContent(z, w0, disk0, w, disk, events, i);
      if StrayBytes(z, events, i) == [] {
        ExactArrives(z, src, r0, w0, disk0, disk, events, i);
      }
    }
  }

  lemma PublishedArrives(z: Zstd, src: Disk, r0: Job, log: seq<Msg>, w0: Job, disk0: Disk, disk: Disk,
                         spoiled: set<int>, i: nat)
    requires i < |r0.files| == |w0.files| && Outcome(z, src, r0, log, i) && w0.fileNum == 0
    requires DistinctFinals(w0)
    requires PublishedState(z, w0, disk0, disk, log, spoiled, i)
    ensures Arrives(z, src, r0, log, w0, disk0, disk, spoiled, i)
  {
    hide Join, Publish, BytesFor, Carried, NoBlockLost, CarriesSome, Overwrites, NeverFinal, Overwritten;
    PublishAt(w0, disk0, FinalPath(w0, i));
    if Closing(r0.id, i) in log {
      assert IsBlockOf(Closing(r0.id, i), i);
      CarriedIsContentIff(z, r0.files[i].name, src[FinalPath(r0, i)]);
    }
  }

  /** A file of a job without clashing names to which nothing went astray. */
  lemma ExactArrives(z: Zstd, src: Disk, r0: Job, w0: Job, disk0: Disk, disk: Disk, events: seq<Event>, i: nat)
    requires i < |r0.files| == |w0.files| && Outcome(z, src, r0, Messages(events), i)
    requires NoStagingClash(w0) && StrayBytes(z, events, i) == [] && InOrder(Messages(events), |w0.files|)
    requires EndsAs(z, w0, disk0, disk, events, i)
    ensures Intact(z, w0, events, i) && i in SpoiledBy(events) ==>
              Arrives(z, src, r0, Messages(events), w0, disk0, disk, SpoiledBy(events), i)
    ensures Closing(r0.id, i) in Messages(events) && Begun(events, i) ==>
              && FinalPath(r0, i) in src
              && (At(disk, FinalPath(w0, i)) == Some(src[FinalPath(r0, i)])
                  <==> Whole(z, events, i) && NoBlockLost(z, r0.files[i].name, src[FinalPath(r0, i)]))
  {
    hide Join, BytesFor, Messages, InOrder, Begun, Whole, StrayBytes, OwnBytes, Landed, SpoiledBy, Carried, NoBlockLost,
         CarriesSome, NeverStaged, NeverFinal, Missed, NoStagingClash, HasBlock;
    var log := Messages(events);
    var name := r0.files[i].name;
    CompleteIff(z, events, |w0.files|, i);
    OwnIsSentIff(z, events, i);
    NothingOverwritten(w0, log, i);
    if Closing(r0.id, i) in log {
      ClosedHasBlock(log, r0.id, i);
      CarriedIsContentIff(z, name, src[FinalPath(r0, i)]);
      CarriedLength(z, name, src[FinalPath(r0, i)]);
    }
    if !HasBlock(log, i) { NoBlockNothingDone(events, |w0.files|, i); }
  }

  lemma NothingOverwritten(w0: Job, log: seq<Msg>, i: nat)
    requires NoStagingClash(w0) && i < |w0.files|
    ensures forall except: set<int> :: !Overwritten(w0, log, except, i)
  {
    forall except: set<int> ensures !Overwritten(w0, log, except, i) {
    }
  }

  lemma ClosedHasBlock(log: seq<Msg>, id: int, i: int)
    requires Closing(id, i) in log
    ensures HasBlock(log, i)
  {
    assert IsBlockOf(Closing(id, i), i);
  }

  lemma CarriedLength(z: Zstd, name: string, content: Bytes)
    ensures |Carried(z, name, content)| <= |content|
    ensures |Carried(z, name, content)| == |content| ==> Carried(z, name, content) == content
  {
    hide CarriedBlocks;
    CarriedPrefix(z, name, content, BlockCount(|content|));
    assert content[..|content|] == content;
  }

  /** Main result, without faults: after as many rounds as the job's sizes ask for, and once everything has
      arrived, a destination file equals its source exactly if the compressor failed on none of its
      blocks and no later file of the job is staged under its name. */
  lemma FaultFreeDelivery(z: Zstd, cipher: Cipher, format: Format, src: Disk, readers: seq<Job>, rounds: seq<Faults>,
                          sender: Endpoint, e: Endpoint, chunks: seq<Bytes>, n: nat,
                          writers: seq<Job>, disk0: Disk, k: nat, i: nat)
    requires Restores(z) && FreshJobs(readers) && FreshReceivers(writers) && Matched(readers, writers)
    requires OnTheWire(cipher, format, sender, e, RunRounds(z, src, SendState(readers, []), rounds).log, chunks, [])
    requires n >= |RunRounds(z, src, SendState(readers, []), rounds).log|
    requires k < |writers| && i < |writers[k].files|
    requires AllPresent(src, readers[k]) && (forall f <- rounds :: readers[k].id !in f)
    requires |rounds| >= RestRounds(src, readers[k].path, readers[k].files, 0) + 1
    ensures var msgs := Arrived(cipher, format, e, chunks, n);
            var disk := DispatchAll(z, RecvState(writers, disk0), msgs, NO_FAULTS).disk;
            var w0, content := writers[k], src[FinalPath(readers[k], i)];
            && (At(disk, FinalPath(w0, i)) == Some(content)
                <==> NoBlockLost(z, w0.files[i].name, content)
                     && forall l | i < l < |w0.files| :: Staged(FinalPath(w0, l)) != FinalPath(w0, i))
            && (NeverFinal(w0, i) ==> Staged(FinalPath(w0, i)) !in disk)
  {
    hide OnTheWire, RunRounds, FreshReceivers, Arrived, DispatchAll, Mine, GetJob, Join, RestRounds, Outcome, InOrder,
         ReaderInv, HasBlock, NoBlockLost, NeverFinal, SpoiledBy, Overwritten, NO_FAULTS, EventsOf, EndsAs,
         NoStagingClash;
    var s := SendState(readers, []);
    var end := RunRounds(z, src, s, rounds);
    var id := readers[k].id;
    var log := Mine(end.log, id);
    MultiplexerTerminates(z, src, readers, rounds, k);
    GetJobAt(readers, k);
    assert readers[k] in readers;
    MineOfNothing(id);
    NoErrorsLogged(z, src, readers[k], s, rounds);
    RunTracksEveryJob(z, src, readers, rounds, k);
    forall l | 0 <= l < |writers[k].files| ensures Closing(id, l) in log && HasBlock(log, l) {
      assert Outcome(z, src, readers[k], log, l);
      ClosedWithoutErrors(z, src, readers[k], log, l);
    }
    NoFaultEvents(Arrived(cipher, format, e, chunks, n), writers[k].id);
    NothingSpoiled(EventsFor(writers[k], Arrived(cipher, format, e, chunks, n), NO_FAULTS));
    EndToEndDelivery(z, cipher, format, src, readers, rounds, sender, e, chunks, n, writers, disk0, NO_FAULTS, k, i);
    AllBegunOverwritten(writers[k], log, i);
  }

  /** With a compressor that never fails, and no destination that is a staging name, everything arrives and nothing
      else stays. */
  lemma PerfectDelivery(z: Zstd, cipher: Cipher, format: Format, src: Disk, readers: seq<Job>, rounds: seq<Faults>,
                        sender: Endpoint, e: Endpoint, chunks: seq<Bytes>, n: nat,
                        writers: seq<Job>, disk0: Disk, k: nat, i: nat)
    requires Restores(z) && FreshJobs(readers) && FreshReceivers(writers) && Matched(readers, writers)
    requires OnTheWire(cipher, format, sender, e, RunRounds(z, src, SendState(readers, []), rounds).log, chunks, [])
    requires n >= |RunRounds(z, src, SendState(readers, []), rounds).log|
    requires k < |writers| && i < |writers[k].files|
    requires AllPresent(src, readers[k]) && (forall f <- rounds :: readers[k].id !in f)
    requires |rounds| >= RestRounds(src, readers[k].path, readers[k].files, 0) + 1
    requires NeverFails(z) && NoStagingClash(writers[k])
    ensures var msgs := Arrived(cipher, format, e, chunks, n);
            var disk := DispatchAll(z, RecvState(writers, disk0), msgs, NO_FAULTS).disk;
            && At(disk, FinalPath(writers[k], i)) == Some(src[FinalPath(readers[k], i)])
            && Staged(FinalPath(writers[k], i)) !in disk
  {
    hide OnTheWire, RunRounds, FreshReceivers, FreshJobs, Arrived, DispatchAll, Join, RestRounds, NO_FAULTS,
         NoBlockLost, At;
    FaultFreeDelivery(z, cipher, format, src, readers, rounds, sender, e, chunks, n, writers, disk0, k, i);
    NothingLost(z, writers[k].files[i].name, src[FinalPath(readers[k], i)]);
  }

  lemma MineOfNothing(id: int)
    ensures Mine([], id) == []
  {
  }

  /** The two ends count alike, while a job is underway and after its end: with everything sent so far
      dispatched, the writer has received the data the reader sent; and it has written at most
      what the reader read, and as much exactly if the compressor failed on none of the chunks read. */
  lemma CountersInLockstep(z: Zstd, src: Disk, readers: seq<Job>, rounds: seq<Faults>,
                           writers: seq<Job>, disk0: Disk, k: nat)
    requires Restores(z) && FreshJobs(readers) && FreshReceivers(writers) && Matched(readers, writers)
    requires k < |writers|
    ensures var s0 := SendState(readers, []);
            var log := RunRounds(z, src, s0, rounds).log;
            var reader := LastSeen(z, src, readers[k].id, s0, rounds);
            var s := DispatchAll(z, RecvState(writers, disk0), log, NO_FAULTS);
            && |s.jobs| == |writers| && reader.Some?
            && s.jobs[k].transfered == reader.value.transfered
            && s.jobs[k].finishedSize <= reader.value.finishedSize
            && (s.jobs[k].finishedSize == reader.value.finishedSize
                <==> AllSurvive(z, src, readers[k], Mine(log, readers[k].id)))
  {
    hide RunRounds, FreshReceivers, DispatchAll, Mine, InOrder, GetJob, PayloadTotal, DataTotal, Cursor,
         FileState, InProgress, Outcome, LastSeen, NoneLost, SameOn, SpoiledBy, EventsOf, Messages, NO_FAULTS,
         AllSurvive;
    var s0 := SendState(readers, []);
    var end := RunRounds(z, src, s0, rounds);
    SenderLogWellFormed(z, src, readers, writers, rounds);
    StagingInvariant(z, writers, disk0, end.log, NO_FAULTS);
    NoFaultEvents(end.log, writers[k].id);
    EventsAreMine(end.log, NO_FAULTS, writers[k].id);
    NothingSpoiled(EventsFor(writers[k], end.log, NO_FAULTS));
    GetJobAt(readers, k);
    assert readers[k] in readers;
    RunTracksEveryJob(z, src, readers, [], k);
    NoRounds(z, src, s0);
    LastSeenTracked(z, src, readers[k], s0, rounds);
    NoneLostIff(z, src, readers, rounds, k);
    var s := DispatchAll(z, RecvState(writers, disk0), end.log, NO_FAULTS);
    assert WriterInv(z, writers[k], disk0, s.jobs[k], s.disk, Mine(end.log, writers[k].id), {});
  }

  /** For a job that has ended without an error: as much exactly if the compressor failed on no block of any of its
      source files. */
  lemma CountersAgreeAtEnd(z: Zstd, src: Disk, readers: seq<Job>, rounds: seq<Faults>,
                           writers: seq<Job>, disk0: Disk, k: nat)
    requires Restores(z) && FreshJobs(readers) && FreshReceivers(writers) && Matched(readers, writers)
    requires k < |writers|
    requires var end := RunRounds(z, src, SendState(readers, []), rounds);
             GetJob(readers[k].id, end.jobs).None? && NoErrors(Mine(end.log, readers[k].id))
    ensures var s0 := SendState(readers, []);
            var reader := LastSeen(z, src, readers[k].id, s0, rounds);
            var s := DispatchAll(z, RecvState(writers, disk0), RunRounds(z, src, s0, rounds).log, NO_FAULTS);
            && |s.jobs| == |writers| && reader.Some?
            && (s.jobs[k].finishedSize == reader.value.finishedSize
                <==> forall i | 0 <= i < |readers[k].files| ::
                       NoBlockLost(z, readers[k].files[i].name, ContentOf(src, FinalPath(readers[k], i))))
  {
    hide RunRounds, FreshReceivers, FreshJobs, DispatchAll, Mine, GetJob, LastSeen, NoErrors, AllSurvive, NO_FAULTS,
         NoBlockLost, Join, ContentOf;
    CountersInLockstep(z, src, readers, rounds, writers, disk0, k);
    NoneLostIff(z, src, readers, rounds, k);
    NoneLostAtEndIff(z, src, readers, rounds, k);
  }

  /** With a compressor that never fails no message is a lost block, so the two ends always count the same. */
  lemma {:induction false} NeverFailsNoneLost(z: Zstd, src: Disk, s: SendState, rounds: seq<Faults>, id: int)
    requires Restores(z) && NeverFails(z) && NoneLost(z, s.log)
    ensures NoneLost(z, RunRounds(z, src, s, rounds).log)
    ensures NoneLost(z, Mine(RunRounds(z, src, s, rounds).log, id))
    decreases rounds
  {
    hide Round, RoundMessages, LostBlock, Mine, Restores, NeverFails;
    if rounds == [] {
      MineWithin(s.log, id);
    } else {
      var news := RoundMessages(z, src, s.jobs, rounds[0]);
      RoundNoneLost(z, src, s.jobs, rounds[0]);
      assert forall m :: m in s.log + news ==> m in s.log || m in news;
      NeverFailsNoneLost(z, src, AfterRound(z, src, s, rounds[0]), rounds[1..], id);
    }
  }

  lemma RoundNoneLost(z: Zstd, src: Disk, jobs: seq<Job>, faults: Faults)
    requires Restores(z) && NeverFails(z)
    ensures NoneLost(z, RoundMessages(z, src, jobs, faults))
  {
    hide StepJob, LostBlock, Restores, IsCompressedFile;
    forall k | 0 <= k < |jobs| ensures !LostBlock(z, RoundMessages(z, src, jobs, faults)[k]) {
      var fault := FaultOf(faults, jobs[k].id);
      StepShape(z, src, jobs[k], fault);
      var m := StepJob(z, src, jobs[k], fault).1;
      if !m.MBlock? { NotABlock(z, m); }
    }
  }

  lemma {:induction false} MineWithin(log: seq<Msg>, id: int)
    ensures forall m <- Mine(log, id) :: m in log
    decreases |log|
  {
    if log != [] { MineWithin(log[..|log| - 1], id); }
  }
}
