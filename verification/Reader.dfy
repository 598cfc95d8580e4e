/** What a reading job has achieved, said about the messages it has sent. */
module Reader {
  import opened Octets
  import opened Compression
  import opened Transfer
  import opened JobLog

  /** One turn of a job in `handle_read_jobs`. An error is reported with the number the job has
      moved on to, not that of the failed file. */
  function StepJob(z: Zstd, disk: Disk, j: Job, fault: Option<Fault>): (Job, Msg) {
    var (j', r) := ReadBlock(z, disk, j, fault);
    (j', match r
         case Cut(b) => MBlock(b)
         case Failed(f) => MError(j'.id, f, j'.fileNum)
         case Exhausted => MDone(j'.id, j'.fileNum))
  }

  /** What the first few blocks of a file carry. */
  ghost predicate CarriesSome(z: Zstd, name: string, content: Bytes, bytes: Bytes) {
    exists n: nat :: n <= BlockCount(|content|) && bytes == CarriedBlocks(z, name, content, n)
  }

  /** How a file the job has left behind fared: sent to its end and closed; cut short by a read error
      behind one of its blocks; or never opened. */
  ghost predicate Outcome(z: Zstd, disk: Disk, j0: Job, log: seq<Msg>, i: nat)
    requires i < |j0.files|
  {
    var path, name := FinalPath(j0, i), j0.files[i].name;
    if Closing(j0.id, i) in log then path in disk && BytesFor(z, log, i) == Carried(z, name, disk[path])
    else
      || (MError(j0.id, ReadFailed, i + 1) in log && path in disk
          && CarriesSome(z, name, disk[path], BytesFor(z, log, i)))
      || (MError(j0.id, OpenFailed, i + 1) in log && !HasBlock(log, i))
  }

  /** The open file has been sent up to the job's position in it, which is where a block ends. */
  ghost predicate InProgress(z: Zstd, disk: Disk, j: Job, log: seq<Msg>)
    requires j.file.Some?
  {
    var h := j.file.value;
    && j.fileNum < |j.files| && h.path == FinalPath(j, j.fileNum) && h.path in disk
    && AtBlockEnd(disk[h.path], h.pos)
    && BytesFor(z, log, j.fileNum) == CarriedBlocks(z, j.files[j.fileNum].name, disk[h.path], BlockCount(h.pos))
    && Closing(j.id, j.fileNum) !in log
  }

  ghost predicate AtBlockEnd(content: Bytes, pos: nat) {
    pos <= |content| && (pos % BUF_SIZE == 0 || pos == |content|)
  }

  lemma NextBlock(content: Bytes, pos: nat)
    requires AtBlockEnd(content, pos) && pos < |content|
    ensures var raw := ChunkAt(content, pos);
            var n := BlockCount(pos);
            && n * BUF_SIZE == pos && BlockCount(pos + |raw|) == n + 1
            && AtBlockEnd(content, pos + |raw|)
  {
  }

  lemma BlockCountMonotone(a: nat, b: nat)
    requires a <= b
    ensures BlockCount(a) <= BlockCount(b)
  {
  }

  ghost predicate ReaderInv(z: Zstd, disk: Disk, j0: Job, j: Job, log: seq<Msg>) {
    && j.id == j0.id && j.path == j0.path && j.files == j0.files && j.totalSize == j0.totalSize
    && j.fileNum <= |j.files|
    && (j.file.Some? ==> InProgress(z, disk, j, log))
    && (j.file.None? ==> !HasBlock(log, j.fileNum))
    && (forall m <- log | m.MBlock? :: m.block.fileNum <= j.fileNum)
    && (forall i | 0 <= i < j.fileNum :: Outcome(z, disk, j0, log, i))
    && InOrder(log, |j.files|)
    && CountersMatch(z, j, log)
  }

  /** The counters against the messages: the data sent is counted exactly; the bytes read are at least
      those that come out at the other end, and as many exactly if no block was lost. */
  ghost predicate CountersMatch(z: Zstd, j: Job, log: seq<Msg>) {
    && j.transfered == DataTotal(log) && j.transfered <= j.finishedSize
    && PayloadTotal(z, log) <= j.finishedSize
    && (j.finishedSize == PayloadTotal(z, log) <==> NoneLost(z, log))
  }

  lemma ReaderStart(z: Zstd, disk: Disk, id: int, path: Path, files: seq<FileEntry>)
    ensures var j := NewJob(id, path, files); ReaderInv(z, disk, j, j, [])
  {
  }

  /** A message about another file leaves the outcome of file `i` as it was. */
  lemma OutcomeStays(z: Zstd, disk: Disk, j0: Job, log: seq<Msg>, m: Msg, i: nat)
    requires i < |j0.files| && Outcome(z, disk, j0, log, i) && !IsBlockOf(m, i)
    ensures Outcome(z, disk, j0, log + [m], i)
  {
    hide Join;
    LogSnoc(z, log, m, i);
    assert BytesFor(z, log + [m], i) == BytesFor(z, log, i);
    assert forall x :: x in log + [m] <==> x in log || x == m;
  }

  lemma InOrderSnoc(log: seq<Msg>, n: nat, m: Msg)
    requires InOrder(log, n) && Dones(log) == 0
    requires m.MBlock? ==> 0 <= m.block.fileNum < n && forall x <- log | x.MBlock? :: x.block.fileNum <= m.block.fileNum
    ensures InOrder(log + [m], n)
  {
    var log' := log + [m];
    NoDones(log);
    forall a, b | 0 <= a < b < |log'|
      ensures log'[a].MBlock? && log'[b].MBlock? ==> log'[a].block.fileNum <= log'[b].block.fileNum
      ensures log'[a].MDone? ==> !log'[b].MBlock?
    {
      assert log'[a] == log[a] && log[a] in log;
    }
  }

  lemma {:induction false} NoDones(log: seq<Msg>)
    requires Dones(log) == 0
    ensures forall a | 0 <= a < |log| :: !log[a].MDone?
    decreases |log|
  {
    if log != [] { NoDones(log[..|log| - 1]); }
  }

  /** The bytes a turn takes from the open file. */
  ghost function RawOf(disk: Disk, j: Job): Bytes
    requires j.fileNum < |j.files|
  {
    var h := if j.file.Some? then j.file.value else Handle(FinalPath(j, j.fileNum), 0);
    ChunkAt(ContentOf(disk, h.path), h.pos)
  }

  /** The shapes of a turn: the end of the job, an error, a closing block, or a block of data. */
  lemma StepShape(z: Zstd, disk: Disk, j: Job, fault: Option<Fault>)
    requires Restores(z)
    ensures var (j', m) := StepJob(z, disk, j, fault);
            && j'.id == j.id && j'.path == j.path && j'.files == j.files && j'.totalSize == j.totalSize
            && IdOf(m) == j.id
            && (m.MDone? <==> j.fileNum >= |j.files|)
            && match m
               case MDone(_, n) => n == j.fileNum && j' == j.(file := None)
               case MError(_, f, n) =>
                 j' == NextFile(j) && n == j.fileNum + 1
                 && (f == OpenFailed ==> j.file.None?)
                 && (f == ReadFailed ==> j.file.Some? || FinalPath(j, j.fileNum) in disk)
               case MBlock(b) =>
                 var raw := RawOf(disk, j);
                 && b.fileNum == j.fileNum && |b.data| <= |raw|
                 && Payload(z, b) == Kept(z, j.files[j.fileNum].name, raw)
                 && (LostBlock(z, m) <==> Payload(z, b) != raw)
                 && (j.file.None? ==> FinalPath(j, j.fileNum) in disk)
                 && (raw == [] <==> m == Closing(j.id, j.fileNum))
                 && j' == (if raw == [] then NextFile(j)
                           else
                             var h := if j.file.Some? then j.file.value else Handle(FinalPath(j, j.fileNum), 0);
                             j.(file := Some(h.(pos := h.pos + |raw|)), finishedSize := j.finishedSize + |raw|,
                                transfered := j.transfered + |b.data|))
  {
    hide Join, Payload, Restores, IsCompressedFile;
    if j.fileNum < |j.files| {
      BlockIntactIff(z, j.id, j.fileNum, j.files[j.fileNum].name, RawOf(disk, j));
    }
  }

  lemma StepTotals(z: Zstd, disk: Disk, j: Job, fault: Option<Fault>, log: seq<Msg>)
    requires Restores(z) && CountersMatch(z, j, log)
    ensures var (j', m) := StepJob(z, disk, j, fault); CountersMatch(z, j', log + [m])
  {
    hide StepJob, Payload, RawOf, PayloadTotal, DataTotal, Restores, NoneLost, LostBlock, Survives;
    var (j', m) := StepJob(z, disk, j, fault);
    StepShape(z, disk, j, fault);
    LogSnoc(z, log, m, 0);
    if m.MBlock? {
      KeptLength(z, j.files[j.fileNum].name, RawOf(disk, j));
    } else {
      NotABlock(z, m);
    }
  }

  lemma NotABlock(z: Zstd, m: Msg)
    requires !m.MBlock?
    ensures !LostBlock(z, m)
  {
  }

  /** What has been sent of the current file, open or not yet. */
  lemma CurrentSoFar(z: Zstd, disk: Disk, j0: Job, j: Job, log: seq<Msg>)
    requires ReaderInv(z, disk, j0, j, log) && j.fileNum < |j.files|
    ensures var path := FinalPath(j, j.fileNum);
            var content := ContentOf(disk, path);
            && (j.file.Some? ==> path in disk && j.file.value.path == path)
            && AtBlockEnd(content, PositionOf(j)) && RawOf(disk, j) == ChunkAt(content, PositionOf(j))
            && BytesFor(z, log, j.fileNum)
               == CarriedBlocks(z, j.files[j.fileNum].name, content, BlockCount(PositionOf(j)))
            && Closing(j.id, j.fileNum) !in log
  {
    hide BytesFor, InOrder, CountersMatch, Outcome, Join, BlockCount, AtBlockEnd, ChunkAt;
    NothingRead(ContentOf(disk, FinalPath(j, j.fileNum)));
    if j.file.None? {
      NoBlockNothingReceived(z, log, j.fileNum);
      assert IsBlockOf(Closing(j.id, j.fileNum), j.fileNum);
    }
  }

  /** The current file makes progress, or is left behind with its outcome settled. */
  lemma StepCurrent(z: Zstd, disk: Disk, j0: Job, j: Job, log: seq<Msg>, fault: Option<Fault>)
    requires Restores(z) && ReaderInv(z, disk, j0, j, log) && j.fileNum < |j.files|
    ensures var (j', m) := StepJob(z, disk, j, fault);
            if j'.fileNum == j.fileNum then j'.file.Some? && InProgress(z, disk, j', log + [m])
            else Outcome(z, disk, j0, log + [m], j.fileNum)
  {
    hide StepJob, Restores, InProgress, Outcome, ReaderInv;
    if StepJob(z, disk, j, fault).1.MBlock? {
      BlockTurn(z, disk, j0, j, log, fault);
    } else {
      ErrorTurn(z, disk, j0, j, log, fault);
    }
  }

  lemma BlockTurn(z: Zstd, disk: Disk, j0: Job, j: Job, log: seq<Msg>, fault: Option<Fault>)
    requires Restores(z) && ReaderInv(z, disk, j0, j, log) && j.fileNum < |j.files|
    requires StepJob(z, disk, j, fault).1.MBlock?
    ensures var (j', m) := StepJob(z, disk, j, fault);
            if j'.fileNum == j.fileNum then j'.file.Some? && InProgress(z, disk, j', log + [m])
            else Outcome(z, disk, j0, log + [m], j.fileNum)
  {
    hide StepJob, Payload, BytesFor, Join, Restores, Kept, BlockCount, AtBlockEnd, RawOf, ReaderInv, CarriedBlocks,
         Carried, HasBlock, LostBlock, CarriesSome;
    var (j', m) := StepJob(z, disk, j, fault);
    var cur := j.fileNum;
    SameJob(z, disk, j0, j, log);
    CurrentSoFar(z, disk, j0, j, log);
    StepShape(z, disk, j, fault);
    LogSnoc(z, log, m, cur);
    assert forall x :: x in log + [m] <==> x in log || x == m;
    BlockSent(z, j.files[cur].name, ContentOf(disk, FinalPath(j, cur)), PositionOf(j));
  }

  lemma ErrorTurn(z: Zstd, disk: Disk, j0: Job, j: Job, log: seq<Msg>, fault: Option<Fault>)
    requires Restores(z) && ReaderInv(z, disk, j0, j, log) && j.fileNum < |j.files|
    requires !StepJob(z, disk, j, fault).1.MBlock?
    ensures StepJob(z, disk, j, fault).0.fileNum != j.fileNum
    ensures Outcome(z, disk, j0, log + [StepJob(z, disk, j, fault).1], j.fileNum)
  {
    hide StepJob, Payload, BytesFor, Join, Restores, Kept, BlockCount, AtBlockEnd, RawOf, ReaderInv, CarriedBlocks,
         Carried, HasBlock, LostBlock, CarriesSome;
    var (j', m) := StepJob(z, disk, j, fault);
    var cur := j.fileNum;
    SameJob(z, disk, j0, j, log);
    CurrentSoFar(z, disk, j0, j, log);
    StepShape(z, disk, j, fault);
    LogSnoc(z, log, m, cur);
    assert forall x :: x in log + [m] <==> x in log || x == m;
    assert BytesFor(z, log, cur) + [] == BytesFor(z, log, cur);
    SomeCarried(z, j.files[cur].name, ContentOf(disk, FinalPath(j, cur)), PositionOf(j));
  }

  lemma SameJob(z: Zstd, disk: Disk, j0: Job, j: Job, log: seq<Msg>)
    requires ReaderInv(z, disk, j0, j, log)
    ensures j.id == j0.id && j.path == j0.path && j.files == j0.files
    ensures j.file.None? ==> !HasBlock(log, j.fileNum)
  {
  }

  lemma NothingRead(content: Bytes)
    ensures AtBlockEnd(content, 0) && BlockCount(0) == 0
  {
  }

  /** The block read at `pos` is the next one, or the file is at its end. */
  lemma BlockSent(z: Zstd, name: string, content: Bytes, pos: nat)
    requires AtBlockEnd(content, pos)
    ensures var raw := ChunkAt(content, pos);
            var sent := CarriedBlocks(z, name, content, BlockCount(pos)) + Kept(z, name, raw);
            && AtBlockEnd(content, pos + |raw|)
            && sent == CarriedBlocks(z, name, content, BlockCount(pos + |raw|))
            && (raw == [] ==> sent == Carried(z, name, content))
  {
    hide Survives;
    if pos < |content| {
      NextBlock(content, pos);
    } else {
      assert CarriedBlocks(z, name, content, BlockCount(pos)) + [] == CarriedBlocks(z, name, content, BlockCount(pos));
    }
  }

  lemma SomeCarried(z: Zstd, name: string, content: Bytes, pos: nat)
    requires AtBlockEnd(content, pos)
    ensures CarriesSome(z, name, content, CarriedBlocks(z, name, content, BlockCount(pos)))
  {
    BlockCountMonotone(pos, |content|);
  }

  /** The order of the blocks, and where the job's number stands among them. */
  lemma StepBlocks(z: Zstd, disk: Disk, j0: Job, j: Job, log: seq<Msg>, fault: Option<Fault>)
    requires Restores(z) && ReaderInv(z, disk, j0, j, log) && Dones(log) == 0
    ensures var (j', m) := StepJob(z, disk, j, fault);
            && j'.fileNum <= |j'.files|
            && InOrder(log + [m], |j'.files|)
            && (forall x <- log + [m] | x.MBlock? :: x.block.fileNum <= j'.fileNum)
            && (j'.file.None? ==> !HasBlock(log + [m], j'.fileNum))
  {
    hide StepJob, InProgress, Outcome, Payload, CountersMatch, BytesFor, InOrder, RawOf, Dones, Restores, Kept;
    var (j', m) := StepJob(z, disk, j, fault);
    StepShape(z, disk, j, fault);
    InOrderSnoc(log, |j.files|, m);
    assert forall x :: x in log + [m] <==> x in log || x == m;
    ProgressInRange(z, disk, j, log);
  }

  lemma ProgressInRange(z: Zstd, disk: Disk, j: Job, log: seq<Msg>)
    ensures j.file.Some? && InProgress(z, disk, j, log) ==> j.fileNum < |j.files|
  {
  }

  /** The outcomes of the files behind the job, and the progress of the open one. */
  lemma StepOutcomes(z: Zstd, disk: Disk, j0: Job, j: Job, log: seq<Msg>, fault: Option<Fault>)
    requires Restores(z) && ReaderInv(z, disk, j0, j, log)
    ensures var (j', m) := StepJob(z, disk, j, fault);
            && (forall i | 0 <= i < j'.fileNum && i < |j0.files| :: Outcome(z, disk, j0, log + [m], i))
            && (j'.file.Some? ==> InProgress(z, disk, j', log + [m]))
  {
    hide StepJob, InProgress, Outcome, Payload, CountersMatch, BytesFor, InOrder, RawOf, Restores, Kept;
    var (j', m) := StepJob(z, disk, j, fault);
    StepShape(z, disk, j, fault);
    if j.fileNum < |j.files| {
      StepCurrent(z, disk, j0, j, log, fault);
    }
    forall i | 0 <= i < j.fileNum ensures Outcome(z, disk, j0, log + [m], i) {
      OutcomeStays(z, disk, j0, log, m, i);
    }
  }

  /** Every turn keeps the invariant, whatever fault strikes in it. */
  lemma ReaderStep(z: Zstd, disk: Disk, j0: Job, j: Job, log: seq<Msg>, fault: Option<Fault>)
    requires Restores(z) && ReaderInv(z, disk, j0, j, log) && Dones(log) == 0
    ensures var (j', m) := StepJob(z, disk, j, fault);
            ReaderInv(z, disk, j0, j', log + [m])
  {
    hide StepJob, InProgress, Outcome, Payload, CountersMatch, BytesFor, InOrder, RawOf, HasBlock, Dones, Restores,
         Kept;
    StepShape(z, disk, j, fault);
    StepTotals(z, disk, j, fault, log);
    StepBlocks(z, disk, j0, j, log, fault);
    StepOutcomes(z, disk, j0, j, log, fault);
  }
}
