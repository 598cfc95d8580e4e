/** How long a job lives, how its files are cut, and what its counters say. */
module Progress {
  import opened Octets
  import opened Compression
  import opened Transfer
  import opened JobLog
  import opened Reader
  import opened ReadJobs

  // ---------------------------------------------------------------------------------------
  // Cutting

  /** Reads a file takes: one for every 128 KiB begun, and one that finds its end. */
  function FileRounds(size: nat): nat {
    BlockCount(size) + 1
  }

  function ReadTimes(z: Zstd, disk: Disk, j: Job, k: nat): Job {
    if k == 0 then j else ReadBlock(z, disk, ReadTimes(z, disk, j, k - 1), None).0
  }

  /** A read takes one round off what is left of a file. */
  lemma FileRoundsStep(size: nat)
    ensures FileRounds(0) == 1 && FileRounds(size) >= 1
    ensures size > 0 ==> FileRounds(size) == 1 + FileRounds(size - Min(BUF_SIZE, size)) && FileRounds(size) >= 2
  {
  }

  /** One read short of the end of the file. */
  lemma ReadOnce(z: Zstd, disk: Disk, j: Job, pos: nat)
    requires j.fileNum < |j.files| && FinalPath(j, j.fileNum) in disk
    requires j.file == Some(Handle(FinalPath(j, j.fileNum), pos)) || (j.file.None? && pos == 0)
    requires pos < |disk[FinalPath(j, j.fileNum)]|
    ensures var path := FinalPath(j, j.fileNum);
            var n := Min(BUF_SIZE, |disk[path]| - pos);
            var j' := ReadBlock(z, disk, j, None).0;
            && j'.file == Some(Handle(path, pos + n)) && j'.finishedSize == j.finishedSize + n
            && j'.fileNum == j.fileNum && j'.id == j.id && j'.files == j.files && j'.path == j.path
  {
    hide PackBlock, Join;
  }

  lemma {:induction false} AfterReads(z: Zstd, disk: Disk, j: Job, k: nat)
    requires j.fileNum < |j.files| && j.file.None? && FinalPath(j, j.fileNum) in disk
    requires k < FileRounds(|disk[FinalPath(j, j.fileNum)]|)
    ensures var path := FinalPath(j, j.fileNum);
            var pos := Min(k * BUF_SIZE, |disk[path]|);
            var j' := ReadTimes(z, disk, j, k);
            && j'.file == (if k == 0 then None else Some(Handle(path, pos)))
            && j'.finishedSize == j.finishedSize + pos
            && j'.fileNum == j.fileNum && j'.id == j.id && j'.files == j.files && j'.path == j.path
  {
    hide Join, FileRounds, ReadBlock;
    if k > 0 {
      var path := FinalPath(j, j.fileNum);
      LastRead(|disk[path]|, k - 1);
      AfterReads(z, disk, j, k - 1);
      var j' := ReadTimes(z, disk, j, k - 1);
      assert FinalPath(j', j'.fileNum) == path;
      ReadOnce(z, disk, j', (k - 1) * BUF_SIZE);
    }
  }

  /** Main result: starting at a file, read number `k` without a fault yields the bytes from
      k * 128 KiB up to the next multiple or the end, packed; the read behind the last of them
      yields the empty closing block and moves on to the next file. */
  lemma ReadsCutFile(z: Zstd, disk: Disk, j: Job, k: nat)
    requires j.fileNum < |j.files| && j.file.None? && FinalPath(j, j.fileNum) in disk
    requires k < FileRounds(|disk[FinalPath(j, j.fileNum)]|)
    ensures var content := disk[FinalPath(j, j.fileNum)];
            var (next, r) := ReadBlock(z, disk, ReadTimes(z, disk, j, k), None);
            && (k + 1 == FileRounds(|content|) <==> k * 0x2_0000 >= |content|)
            && if k * 0x2_0000 >= |content| then
                 r == Cut(Block(j.id, j.fileNum, [], false)) && next.fileNum == j.fileNum + 1 && next.file.None?
               else
                 && next.fileNum == j.fileNum
                 && r == Cut(PackBlock(z, j.id, j.fileNum, j.files[j.fileNum].name,
                                       content[k * 0x2_0000..Min((k + 1) * 0x2_0000, |content|)]))
  {
    hide PackBlock, ReadTimes, FileRounds, Join, ReadBlock, Min;
    AfterReads(z, disk, j, k);
    ChunkBounds(|disk[FinalPath(j, j.fileNum)]|, k);
    ReadAt(z, disk, ReadTimes(z, disk, j, k));
  }

  lemma ChunkBounds(size: nat, k: nat)
    requires k < FileRounds(size)
    ensures var pos := Min(k * BUF_SIZE, size);
            && (k == 0 ==> pos == 0)
            && (k + 1 == FileRounds(size) <==> k * 0x2_0000 >= size)
            && (pos >= size <==> k * 0x2_0000 >= size)
            && (pos < size ==> pos == k * 0x2_0000 && Min(pos + 0x2_0000, size) == Min((k + 1) * 0x2_0000, size))
  {
    LastRead(size, k);
  }

  /** One read, from where the job stands in its file. */
  lemma ReadAt(z: Zstd, disk: Disk, j: Job)
    requires j.fileNum < |j.files| && FinalPath(j, j.fileNum) in disk
    requires j.file.Some? ==> j.file.value.path == FinalPath(j, j.fileNum)
    ensures var content, pos := disk[FinalPath(j, j.fileNum)], PositionOf(j);
            var (next, r) := ReadBlock(z, disk, j, None);
            if pos >= |content| then
              r == Cut(Block(j.id, j.fileNum, [], false)) && next.fileNum == j.fileNum + 1 && next.file.None?
            else
              && next.fileNum == j.fileNum
              && r == Cut(PackBlock(z, j.id, j.fileNum, j.files[j.fileNum].name,
                                    content[pos..Min(pos + 0x2_0000, |content|)]))
  {
    hide PackBlock, Join;
    PackNothing(z, j.id, j.fileNum, j.files[j.fileNum].name);
  }

  lemma LastRead(size: nat, k: nat)
    requires k < FileRounds(size)
    ensures k + 1 == FileRounds(size) <==> k * BUF_SIZE >= size
  {
  }

  lemma PackNothing(z: Zstd, id: int, fileNum: nat, name: string)
    ensures PackBlock(z, id, fileNum, name, []) == Block(id, fileNum, [], false)
  {
  }

  // ---------------------------------------------------------------------------------------
  // Rounds

  function RestRounds(disk: Disk, path: Path, files: seq<FileEntry>, i: nat): nat
    requires i <= |files|
    decreases |files| - i
  {
    if i == |files| then 0
    else FileRounds(|ContentOf(disk, Join(path, files[i].name))|) + RestRounds(disk, path, files, i + 1)
  }

  /** The rounds a job still needs when nothing fails: what is left of the open file, the files
      behind it, and the round that finds the job at its end. */
  function RoundsLeft(disk: Disk, j: Job): nat {
    if j.fileNum >= |j.files| then 1
    else match j.file
      case None => RestRounds(disk, j.path, j.files, j.fileNum) + 1
      case Some(h) =>
        var size := |ContentOf(disk, h.path)|;
        FileRounds(if h.pos < size then size - h.pos else 0) + RestRounds(disk, j.path, j.files, j.fileNum + 1) + 1
  }

  ghost predicate HandleOnFile(j: Job) {
    j.file.Some? ==> j.fileNum < |j.files| && j.file.value.path == FinalPath(j, j.fileNum)
  }

  lemma MissingIsEmpty(disk: Disk, path: Path)
    ensures path !in disk ==> ContentOf(disk, path) == []
  {
  }

  ghost predicate AllPresent(disk: Disk, j: Job) {
    forall i | 0 <= i < |j.files| :: FinalPath(j, i) in disk
  }

  /** Every turn of a job that is not its last uses up at least one of the rounds it needs, errors
      included, and exactly one when nothing fails. */
  lemma StepUsesRound(z: Zstd, disk: Disk, j: Job, fault: Option<Fault>)
    requires HandleOnFile(j)
    ensures var (j', m) := StepJob(z, disk, j, fault);
            && HandleOnFile(j')
            && j'.id == j.id && j'.path == j.path && j'.files == j.files
            && (m.MDone? <==> RoundsLeft(disk, j) == 1)
            && (!m.MDone? ==> RoundsLeft(disk, j') + 1 <= RoundsLeft(disk, j))
            && (!m.MDone? && fault.None? && AllPresent(disk, j) ==> RoundsLeft(disk, j') + 1 == RoundsLeft(disk, j))
  {
    hide PackBlock, FileRounds, Join, ContentOf;
    if j.fileNum < |j.files| {
      var path := FinalPath(j, j.fileNum);
      var size := |ContentOf(disk, path)|;
      var pos := if j.file.Some? then j.file.value.pos else 0;
      var left := if pos < size then size - pos else 0;
      FileRoundsStep(left);
      FileRoundsStep(size);
      MissingIsEmpty(disk, path);
      assert RoundsLeft(disk, j) == FileRounds(left) + RestRounds(disk, j.path, j.files, j.fileNum + 1) + 1;
    }
  }

  /** A job cannot be in the list after as many rounds as it had left. */
  lemma {:induction false} RunsOut(z: Zstd, disk: Disk, j0: Job, s: SendState, rounds: seq<Faults>)
    requires DistinctIds(s.jobs)
    requires GetJob(j0.id, s.jobs).Some? ==> HandleOnFile(GetJob(j0.id, s.jobs).value)
    ensures match GetJob(j0.id, RunRounds(z, disk, s, rounds).jobs)
            case None => true
            case Some(j) => GetJob(j0.id, s.jobs).Some?
                            && RoundsLeft(disk, j) + |rounds| <= RoundsLeft(disk, GetJob(j0.id, s.jobs).value)
    decreases rounds
  {
    hide StepJob, GetJob, Round, RoundMessages, RoundsLeft, DistinctIds, HandleOnFile;
    if rounds != [] {
      RoundForJob(z, disk, s.jobs, rounds[0], j0.id);
      if GetJob(j0.id, s.jobs).Some? {
        StepUsesRound(z, disk, GetJob(j0.id, s.jobs).value, FaultOf(rounds[0], j0.id));
      }
      var s' := AfterRound(z, disk, s, rounds[0]);
      RunsOut(z, disk, j0, s', rounds[1..]);
    }
  }

  /** Without faults and with every file present, a job leaves with the last round it had left, and not before. */
  lemma {:induction false} RunsOutExactly(z: Zstd, disk: Disk, id: int, s: SendState, rounds: seq<Faults>)
    requires DistinctIds(s.jobs) && GetJob(id, s.jobs).Some?
    requires var j := GetJob(id, s.jobs).value; HandleOnFile(j) && AllPresent(disk, j)
    requires forall f <- rounds :: id !in f
    ensures GetJob(id, RunRounds(z, disk, s, rounds).jobs).None?
        <==> |rounds| >= RoundsLeft(disk, GetJob(id, s.jobs).value)
    decreases rounds
  {
    hide StepJob, GetJob, Round, RoundMessages, RoundsLeft, DistinctIds, HandleOnFile;
    var j := GetJob(id, s.jobs).value;
    StepUsesRound(z, disk, j, None);
    if rounds == [] {
      RoundsLeftPositive(disk, j);
    } else {
      assert rounds[0] in rounds;
      RoundForJob(z, disk, s.jobs, rounds[0], id);
      var s' := AfterRound(z, disk, s, rounds[0]);
      var (j', m) := StepJob(z, disk, j, None);
      assert AllPresent(disk, j') by { SamePaths(disk, j, j'); }
      if m.MDone? {
        StaysGone(z, disk, id, s', rounds[1..]);
      } else {
        RunsOutExactly(z, disk, id, s', rounds[1..]);
      }
    }
  }

  lemma SamePaths(disk: Disk, j: Job, j': Job)
    requires AllPresent(disk, j) && j'.path == j.path && j'.files == j.files
    ensures AllPresent(disk, j')
  {
    forall i | 0 <= i < |j.files| ensures FinalPath(j', i) in disk {
      assert FinalPath(j', i) == FinalPath(j, i);
    }
  }

  lemma RoundsLeftPositive(disk: Disk, j: Job)
    ensures RoundsLeft(disk, j) >= 1
  {
  }

  /** A job in the list has not reported its end; a job that was in it and is gone has, once. */
  lemma {:induction false} EndReportedOnce(z: Zstd, disk: Disk, id: int, s: SendState, rounds: seq<Faults>)
    requires DistinctIds(s.jobs)
    requires Dones(Mine(s.log, id)) == if GetJob(id, s.jobs).Some? then 0 else 1
    ensures var end := RunRounds(z, disk, s, rounds);
            Dones(Mine(end.log, id)) == if GetJob(id, end.jobs).Some? then 0 else 1
    decreases rounds
  {
    hide StepJob, GetJob, Round, RoundMessages, DistinctIds, Mine, Dones;
    if rounds != [] {
      var news := RoundMessages(z, disk, s.jobs, rounds[0]);
      RoundForJob(z, disk, s.jobs, rounds[0], id);
      MineAppend(s.log, news, id);
      if GetJob(id, s.jobs).Some? {
        LogSnoc(z, Mine(s.log, id), Mine(news, id)[0], 0);
      } else {
        assert Mine(s.log, id) + [] == Mine(s.log, id);
      }
      EndReportedOnce(z, disk, id, AfterRound(z, disk, s, rounds[0]), rounds[1..]);
    }
  }

  /** Main result: whatever fails, a fresh job is gone, with exactly one end message, after the sum
      over its files of (ceil(size / 128 KiB) + 1) rounds plus one; without faults it takes exactly
      that many. */
  lemma MultiplexerTerminates(z: Zstd, disk: Disk, jobs: seq<Job>, rounds: seq<Faults>, k: nat)
    requires FreshJobs(jobs) && k < |jobs|
    ensures var j := jobs[k];
            var needed := RestRounds(disk, j.path, j.files, 0) + 1;
            var end := RunRounds(z, disk, SendState(jobs, []), rounds);
            && (|rounds| >= needed ==> GetJob(j.id, end.jobs).None? && Dones(Mine(end.log, j.id)) == 1)
            && (AllPresent(disk, j) && (forall f <- rounds :: j.id !in f) ==>
                  (GetJob(j.id, end.jobs).None? <==> |rounds| >= needed))
  {
    hide RunRounds, RestRounds;
    var j := jobs[k];
    var s := SendState(jobs, []);
    GetJobAt(jobs, k);
    assert j in jobs && HandleOnFile(j);
    assert RoundsLeft(disk, j) == RestRounds(disk, j.path, j.files, 0) + 1 by { RestRoundsEnd(disk, j); }
    EndReportedOnce(z, disk, j.id, s, rounds);
    RunsOut(z, disk, j, s, rounds);
    if GetJob(j.id, RunRounds(z, disk, s, rounds).jobs).Some? {
      RoundsLeftPositive(disk, GetJob(j.id, RunRounds(z, disk, s, rounds).jobs).value);
    }
    if AllPresent(disk, j) && forall f <- rounds :: j.id !in f {
      RunsOutExactly(z, disk, j.id, s, rounds);
    }
  }

  lemma RestRoundsEnd(disk: Disk, j: Job)
    ensures RestRounds(disk, j.path, j.files, |j.files|) == 0
  {
  }

  lemma NoFaultNoError(z: Zstd, disk: Disk, j: Job)
    requires AllPresent(disk, j)
    ensures !StepJob(z, disk, j, None).1.MError?
  {
    hide PackBlock, Join, ContentOf, ChunkAt;
  }

  /** A job the file system never fails, with every file present, never reports an error. */
  lemma {:induction false} NoErrorsLogged(z: Zstd, disk: Disk, j0: Job, s: SendState, rounds: seq<Faults>)
    requires DistinctIds(s.jobs) && AllPresent(disk, j0) && (forall f <- rounds :: j0.id !in f)
    requires GetJob(j0.id, s.jobs).Some? ==> var j := GetJob(j0.id, s.jobs).value;
                                           HandleOnFile(j) && j.path == j0.path && j.files == j0.files
    requires NoErrors(Mine(s.log, j0.id))
    ensures NoErrors(Mine(RunRounds(z, disk, s, rounds).log, j0.id))
    decreases rounds
  {
    hide StepJob, GetJob, Round, RoundMessages, RoundsLeft, DistinctIds, HandleOnFile, AllPresent, Mine;
    if rounds != [] {
      assert rounds[0] in rounds;
      var news := RoundMessages(z, disk, s.jobs, rounds[0]);
      var s' := AfterRound(z, disk, s, rounds[0]);
      RoundForJob(z, disk, s.jobs, rounds[0], j0.id);
      MineAppend(s.log, news, j0.id);
      if GetJob(j0.id, s.jobs).Some? {
        var j := GetJob(j0.id, s.jobs).value;
        StepUsesRound(z, disk, j, None);
        SamePaths(disk, j0, j);
        NoFaultNoError(z, disk, j);
      }
      NoErrorsLogged(z, disk, j0, s', rounds[1..]);
    }
  }

  // ---------------------------------------------------------------------------------------
  // Counters

  function SumSizes(files: seq<FileEntry>, n: nat): nat
    requires n <= |files|
  {
    if n == 0 then 0 else SumSizes(files, n - 1) + files[n - 1].size
  }

  lemma {:induction false} SumSizesShift(files: seq<FileEntry>, n: nat)
    requires files != [] && 1 <= n <= |files|
    ensures SumSizes(files, n) == files[0].size + SumSizes(files[1..], n - 1)
    decreases n
  {
    if n > 1 { SumSizesShift(files, n - 1); }
  }

  lemma {:induction false} TotalSizeIsSum(files: seq<FileEntry>)
    ensures TotalSize(files) == SumSizes(files, |files|)
  {
    if files != [] {
      TotalSizeIsSum(files[1..]);
      SumSizesShift(files, |files|);
    }
  }

  lemma {:induction false} SumSizesMonotone(files: seq<FileEntry>, m: nat, n: nat)
    requires m <= n <= |files|
    ensures SumSizes(files, m) <= SumSizes(files, n)
    decreases n
  {
    if m < n { SumSizesMonotone(files, m, n - 1); }
  }

  /** The listed sizes are those of the files. */
  ghost predicate SizesMatch(disk: Disk, j: Job) {
    forall i | 0 <= i < |j.files| :: FinalPath(j, i) in disk ==> |disk[FinalPath(j, i)]| == j.files[i].size
  }

  ghost predicate NoErrors(log: seq<Msg>) {
    forall m <- log :: !m.MError?
  }

  /** The bytes counted are at most those of the files behind the job and of the open one up to the
      position, and as many exactly while nothing has failed. */
  ghost predicate CounterInv(disk: Disk, j0: Job, j: Job, log: seq<Msg>) {
    && j.id == j0.id && j.path == j0.path && j.files == j0.files && j.totalSize == j0.totalSize
    && j.fileNum <= |j.files| && HandleOnFile(j)
    && (j.file.Some? ==> FinalPath(j, j.fileNum) in disk && PositionOf(j) <= |disk[FinalPath(j, j.fileNum)]|)
    && j.transfered <= j.finishedSize <= SumSizes(j.files, j.fileNum) + PositionOf(j)
    && (NoErrors(log) ==> j.finishedSize == SumSizes(j.files, j.fileNum) + PositionOf(j))
  }

  lemma PackNotLonger(z: Zstd, id: int, fileNum: nat, name: string, raw: Bytes)
    ensures |PackBlock(z, id, fileNum, name, raw).data| <= |raw|
  {
  }

  lemma CounterStep(z: Zstd, disk: Disk, j0: Job, j: Job, log: seq<Msg>, fault: Option<Fault>)
    requires CounterInv(disk, j0, j, log) && SizesMatch(disk, j0)
    ensures var (j', m) := StepJob(z, disk, j, fault);
            && CounterInv(disk, j0, j', log + [m])
            && (m.MDone? ==> j'.fileNum == |j'.files|)
  {
    hide PackBlock, Join;
    var (j', m) := StepJob(z, disk, j, fault);
    assert forall x :: x in log + [m] <==> x in log || x == m;
    assert NoErrors(log + [m]) <==> NoErrors(log) && !m.MError?;
    if j.fileNum < |j.files| {
      var path := FinalPath(j, j.fileNum);
      assert path == FinalPath(j0, j.fileNum) == FinalPath(j', j.fileNum);
      assert path in disk ==> |disk[path]| == j.files[j.fileNum].size;
      assert SumSizes(j.files, j.fileNum + 1) == SumSizes(j.files, j.fileNum) + j.files[j.fileNum].size;
      PackNotLonger(z, j.id, j.fileNum, j.files[j.fileNum].name, ChunkAt(ContentOf(disk, path), PositionOf(j)));
    }
  }

  lemma {:induction false} CounterRun(z: Zstd, disk: Disk, j0: Job, s: SendState, rounds: seq<Faults>)
    requires DistinctIds(s.jobs) && GetJob(j0.id, s.jobs).Some? && SizesMatch(disk, j0)
    requires CounterInv(disk, j0, GetJob(j0.id, s.jobs).value, Mine(s.log, j0.id))
    ensures var end := RunRounds(z, disk, s, rounds);
            var last := LastSeen(z, disk, j0.id, s, rounds);
            && last.Some? && CounterInv(disk, j0, last.value, Mine(end.log, j0.id))
            && (GetJob(j0.id, end.jobs).None? ==> last.value.fileNum == |last.value.files|)
    decreases rounds
  {
    hide StepJob, GetJob, Round, RoundMessages, DistinctIds, Mine, CounterInv, SizesMatch;
    if rounds != [] {
      var j := GetJob(j0.id, s.jobs).value;
      var s' := AfterRound(z, disk, s, rounds[0]);
      RoundForJob(z, disk, s.jobs, rounds[0], j0.id);
      MineAppend(s.log, RoundMessages(z, disk, s.jobs, rounds[0]), j0.id);
      CounterStep(z, disk, j0, j, Mine(s.log, j0.id), FaultOf(rounds[0], j0.id));
      if GetJob(j0.id, s'.jobs).Some? {
        CounterRun(z, disk, j0, s', rounds[1..]);
      } else {
        StaysGone(z, disk, j0.id, s', rounds[1..]);
        assert LastSeen(z, disk, j0.id, s', rounds[1..]).None?;
      }
    }
  }

  /** Main result: in every run, at every moment, transfered <= finished_size <= total_size for each job,
      and when a job that met no error has ended, finished_size is total_size. */
  lemma CountersBounded(z: Zstd, disk: Disk, jobs: seq<Job>, rounds: seq<Faults>, k: nat)
    requires FreshJobs(jobs) && k < |jobs| && SizesMatch(disk, jobs[k])
    ensures var id := jobs[k].id;
            var end := RunRounds(z, disk, SendState(jobs, []), rounds);
            var last := LastSeen(z, disk, id, SendState(jobs, []), rounds);
            && last.Some?
            && last.value.transfered <= last.value.finishedSize <= last.value.totalSize
            && (GetJob(id, end.jobs).None? && NoErrors(Mine(end.log, id))
                ==> last.value.finishedSize == last.value.totalSize)
  {
    hide RunRounds, LastSeen, Mine, SumSizes, SizesMatch, TotalSize;
    var j := jobs[k];
    var s := SendState(jobs, []);
    GetJobAt(jobs, k);
    assert j in jobs;
    NothingCounted(disk, j);
    CounterRun(z, disk, j, s, rounds);
    var last := LastSeen(z, disk, j.id, s, rounds).value;
    TotalSizeIsSum(j.files);
    PositionWithinFile(disk, j, last, Mine(RunRounds(z, disk, s, rounds).log, j.id));
    SumSizesMonotone(j.files, last.fileNum, |j.files|);
  }

  lemma NothingCounted(disk: Disk, j: Job)
    requires j == NewJob(j.id, j.path, j.files)
    ensures CounterInv(disk, j, j, Mine([], j.id))
  {
  }

  lemma PositionWithinFile(disk: Disk, j0: Job, j: Job, log: seq<Msg>)
    requires CounterInv(disk, j0, j, log) && SizesMatch(disk, j0)
    ensures SumSizes(j.files, j.fileNum) + PositionOf(j) <= SumSizes(j.files, |j.files|)
  {
    hide Join;
    if j.file.Some? {
      assert FinalPath(j, j.fileNum) == FinalPath(j0, j.fileNum);
      SumSizesMonotone(j.files, j.fileNum + 1, |j.files|);
    } else {
      SumSizesMonotone(j.files, j.fileNum, |j.files|);
    }
  }
}
