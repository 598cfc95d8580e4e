/** Which messages of a job bring nothing, said about its files: a block is lost exactly if the compressor failed
    on the part of the file it was cut from. */
module Losses {
  import opened Octets
  import opened Compression
  import opened Transfer
  import opened JobLog
  import opened Reader
  import opened ReadJobs
  import opened Progress

  predicate IsDataBlock(m: Msg, id: int, i: int) {
    IsBlockOf(m, i) && m != Closing(id, i)
  }

  /** The blocks of data sent for file `i`. */
  function SentBlocks(log: seq<Msg>, id: int, i: int): nat {
    if log == [] then 0
    else SentBlocks(log[..|log| - 1], id, i) + (if IsDataBlock(log[|log| - 1], id, i) then 1 else 0)
  }

  lemma SentSnoc(log: seq<Msg>, m: Msg, id: int, i: int)
    ensures SentBlocks(log + [m], id, i) == SentBlocks(log, id, i) + (if IsDataBlock(m, id, i) then 1 else 0)
  {
    assert (log + [m])[..|log|] == log;
  }

  /** Chunk `n` of file `i` reaches the other end. */
  ghost predicate ChunkSurvives(z: Zstd, disk: Disk, j0: Job, i: nat, n: nat)
    requires i < |j0.files|
  {
    Survives(z, j0.files[i].name, ChunkAt(ContentOf(disk, FinalPath(j0, i)), n * BUF_SIZE))
  }

  /** The compressor failed on none of the chunks sent. */
  ghost predicate AllSurvive(z: Zstd, disk: Disk, j0: Job, log: seq<Msg>) {
    forall i: nat, n: nat | i < |j0.files| && n < SentBlocks(log, j0.id, i) :: ChunkSurvives(z, disk, j0, i, n)
  }

  /** How far the current file has been read, and what that means for the blocks sent. */
  ghost predicate LossInv(z: Zstd, disk: Disk, j0: Job, j: Job, log: seq<Msg>) {
    && j.id == j0.id && j.path == j0.path && j.files == j0.files && j.fileNum <= |j.files|
    && (j.file.Some? ==>
          && j.fileNum < |j.files| && j.file.value.path == FinalPath(j0, j.fileNum)
          && AtBlockEnd(ContentOf(disk, j.file.value.path), j.file.value.pos))
    && SentBlocks(log, j0.id, j.fileNum) == BlockCount(PositionOf(j))
    && (forall i | i > j.fileNum :: SentBlocks(log, j0.id, i) == 0)
    && (forall i: nat | i < |j0.files| && Closing(j0.id, i) in log ::
          i < j.fileNum && SentBlocks(log, j0.id, i) == BlockCount(|ContentOf(disk, FinalPath(j0, i))|))
    && (NoneLost(z, log) <==> AllSurvive(z, disk, j0, log))
  }

  lemma LossStart(z: Zstd, disk: Disk, j0: Job)
    requires j0 == NewJob(j0.id, j0.path, j0.files)
    ensures LossInv(z, disk, j0, j0, [])
  {
    hide Join;
    NothingRead([]);
  }

  /** One more data block of the current file adds its chunk to those that have to survive. */
  lemma SurviveSnoc(z: Zstd, disk: Disk, j0: Job, log: seq<Msg>, m: Msg, cur: nat)
    requires cur < |j0.files|
    requires forall i: nat | i < |j0.files| && i != cur :: SentBlocks(log + [m], j0.id, i) == SentBlocks(log, j0.id, i)
    ensures SentBlocks(log + [m], j0.id, cur) == SentBlocks(log, j0.id, cur) + 1 ==>
              (AllSurvive(z, disk, j0, log + [m])
               <==> AllSurvive(z, disk, j0, log) && ChunkSurvives(z, disk, j0, cur, SentBlocks(log, j0.id, cur)))
    ensures SentBlocks(log + [m], j0.id, cur) == SentBlocks(log, j0.id, cur) ==>
              (AllSurvive(z, disk, j0, log + [m]) <==> AllSurvive(z, disk, j0, log))
  {
    hide SentBlocks, ChunkSurvives;
    var now := log + [m];
    var n := SentBlocks(log, j0.id, cur);
    if SentBlocks(now, j0.id, cur) == n + 1 && AllSurvive(z, disk, j0, now) {
      assert ChunkSurvives(z, disk, j0, cur, n);
      forall i: nat, k: nat | i < |j0.files| && k < SentBlocks(log, j0.id, i)
        ensures ChunkSurvives(z, disk, j0, i, k)
      {
        assert k < SentBlocks(now, j0.id, i);
      }
    }
  }

  lemma SameSurvive(z: Zstd, disk: Disk, j0: Job, log: seq<Msg>, m: Msg)
    requires forall i: nat :: SentBlocks(log + [m], j0.id, i) == SentBlocks(log, j0.id, i)
    ensures AllSurvive(z, disk, j0, log + [m]) <==> AllSurvive(z, disk, j0, log)
  {
    hide SentBlocks, ChunkSurvives;
  }

  /** The next read takes the chunk whose number is that of the blocks sent so far. */
  lemma ReadChunk(z: Zstd, disk: Disk, j0: Job, j: Job)
    requires j.path == j0.path && j.files == j0.files && j.fileNum < |j.files|
    requires j.file.Some? ==> j.file.value.path == FinalPath(j0, j.fileNum)
                              && AtBlockEnd(ContentOf(disk, j.file.value.path), j.file.value.pos)
    ensures var content, pos, raw := ContentOf(disk, FinalPath(j0, j.fileNum)), PositionOf(j), RawOf(disk, j);
            && AtBlockEnd(content, pos) && (raw == [] <==> pos == |content|)
            && (raw != [] ==>
                  && BlockCount(pos + |raw|) == BlockCount(pos) + 1 && AtBlockEnd(content, pos + |raw|)
                  && (ChunkSurvives(z, disk, j0, j.fileNum, BlockCount(pos))
                      <==> Kept(z, j0.files[j.fileNum].name, raw) == raw))
  {
    hide Join, Survives, Kept, BlockCount, AtBlockEnd, ContentOf;
    var content := ContentOf(disk, FinalPath(j0, j.fileNum));
    assert FinalPath(j, j.fileNum) == FinalPath(j0, j.fileNum);
    NothingRead(content);
    WithinFile(content, PositionOf(j));
    var raw := RawOf(disk, j);
    assert raw == ChunkAt(content, PositionOf(j));
    if raw != [] {
      NextBlock(content, PositionOf(j));
      KeptLength(z, j0.files[j.fileNum].name, raw);
    }
  }

  lemma WithinFile(content: Bytes, pos: nat)
    ensures AtBlockEnd(content, pos) ==> pos <= |content|
  {
  }

  lemma LossStep(z: Zstd, disk: Disk, j0: Job, j: Job, log: seq<Msg>, fault: Option<Fault>)
    requires Restores(z) && LossInv(z, disk, j0, j, log)
    ensures var (j', m) := StepJob(z, disk, j, fault);
            LossInv(z, disk, j0, j', log + [m])
  {
    hide StepJob, SentBlocks, AllSurvive, Restores, Join, BlockCount, AtBlockEnd, LostBlock, Payload,
         NoneLost, Kept, RawOf, ContentOf, LossInv, Survives;
    var (j', m) := StepJob(z, disk, j, fault);
    StepShape(z, disk, j, fault);
    if m.MBlock? {
      if m == Closing(j.id, j.fileNum) {
        LossClosing(z, disk, j0, j, log);
      } else {
        LossData(z, disk, j0, j, log, m, j');
      }
    } else {
      LossOther(z, disk, j0, j, log, m, j');
    }
  }

  lemma SentAll(log: seq<Msg>, m: Msg, id: int)
    ensures forall i :: SentBlocks(log + [m], id, i)
                        == SentBlocks(log, id, i) + (if IsDataBlock(m, id, i) then 1 else 0)
    ensures forall x :: x in log + [m] <==> x in log || x == m
  {
    forall i ensures SentBlocks(log + [m], id, i)
                     == SentBlocks(log, id, i) + (if IsDataBlock(m, id, i) then 1 else 0)
    {
      SentSnoc(log, m, id, i);
    }
  }

  lemma LossOther(z: Zstd, disk: Disk, j0: Job, j: Job, log: seq<Msg>, m: Msg, j': Job)
    requires LossInv(z, disk, j0, j, log) && !m.MBlock?
    requires if j.fileNum < |j.files| then j' == NextFile(j) else j' == j.(file := None)
    ensures LossInv(z, disk, j0, j', log + [m])
  {
    hide SentBlocks, AllSurvive, Join, BlockCount, AtBlockEnd, LostBlock, NoneLost, ContentOf;
    SentAll(log, m, j0.id);
    LogSnoc(z, log, m, 0);
    NotABlock(z, m);
    SameSurvive(z, disk, j0, log, m);
    NothingRead([]);
  }

  lemma LossClosing(z: Zstd, disk: Disk, j0: Job, j: Job, log: seq<Msg>)
    requires LossInv(z, disk, j0, j, log) && j.fileNum < |j.files| && RawOf(disk, j) == []
    ensures LossInv(z, disk, j0, NextFile(j), log + [Closing(j.id, j.fileNum)])
  {
    hide SentBlocks, AllSurvive, Join, BlockCount, AtBlockEnd, LostBlock, NoneLost, ContentOf, RawOf, ChunkSurvives,
         Kept;
    var m := Closing(j.id, j.fileNum);
    SentAll(log, m, j0.id);
    LogSnoc(z, log, m, 0);
    ClosingIsNotLost(z, j.id, j.fileNum);
    SameSurvive(z, disk, j0, log, m);
    ReadChunk(z, disk, j0, j);
    NothingRead([]);
  }

  lemma ClosingIsNotLost(z: Zstd, id: int, i: int)
    ensures !LostBlock(z, Closing(id, i))
  {
  }

  lemma LossData(z: Zstd, disk: Disk, j0: Job, j: Job, log: seq<Msg>, m: Msg, j': Job)
    requires LossInv(z, disk, j0, j, log) && j.fileNum < |j.files| && RawOf(disk, j) != []
    requires m.MBlock? && m.block.fileNum == j.fileNum && m != Closing(j.id, j.fileNum)
    requires LostBlock(z, m) <==> Kept(z, j.files[j.fileNum].name, RawOf(disk, j)) != RawOf(disk, j)
    requires j'.id == j.id && j'.path == j.path && j'.files == j.files && j'.fileNum == j.fileNum
    requires j'.file == Some(Handle(if j.file.Some? then j.file.value.path else FinalPath(j, j.fileNum),
                                    PositionOf(j) + |RawOf(disk, j)|))
    ensures LossInv(z, disk, j0, j', log + [m])
  {
    hide SentBlocks, AllSurvive, Join, BlockCount, AtBlockEnd, LostBlock, NoneLost, ContentOf, RawOf, ChunkSurvives,
         Kept;
    SentAll(log, m, j0.id);
    LogSnoc(z, log, m, 0);
    ReadChunk(z, disk, j0, j);
    SurviveSnoc(z, disk, j0, log, m, j.fileNum);
    assert FinalPath(j, j.fileNum) == FinalPath(j0, j.fileNum);
  }

  // ---------------------------------------------------------------------------------------
  // Whole runs

  lemma {:induction false} LossRun(z: Zstd, disk: Disk, j0: Job, s: SendState, rounds: seq<Faults>)
    requires Restores(z) && DistinctIds(s.jobs) && GetJob(j0.id, s.jobs).Some?
    requires LossInv(z, disk, j0, GetJob(j0.id, s.jobs).value, Mine(s.log, j0.id))
    ensures var last := LastSeen(z, disk, j0.id, s, rounds);
            last.Some? && LossInv(z, disk, j0, last.value, Mine(RunRounds(z, disk, s, rounds).log, j0.id))
    decreases rounds
  {
    hide StepJob, GetJob, Round, RoundMessages, DistinctIds, Mine, LossInv, Restores;
    if rounds != [] {
      var j := GetJob(j0.id, s.jobs).value;
      var s' := AfterRound(z, disk, s, rounds[0]);
      RoundForJob(z, disk, s.jobs, rounds[0], j0.id);
      MineAppend(s.log, RoundMessages(z, disk, s.jobs, rounds[0]), j0.id);
      LossStep(z, disk, j0, j, Mine(s.log, j0.id), FaultOf(rounds[0], j0.id));
      if GetJob(j0.id, s'.jobs).Some? {
        LossRun(z, disk, j0, s', rounds[1..]);
      } else {
        StaysGone(z, disk, j0.id, s', rounds[1..]);
        assert LastSeen(z, disk, j0.id, s', rounds[1..]).None?;
      }
    }
  }

  lemma LossOfRun(z: Zstd, disk: Disk, jobs: seq<Job>, rounds: seq<Faults>, k: nat)
    requires Restores(z) && FreshJobs(jobs) && k < |jobs|
    ensures var s := SendState(jobs, []);
            var last := LastSeen(z, disk, jobs[k].id, s, rounds);
            last.Some? && LossInv(z, disk, jobs[k], last.value, Mine(RunRounds(z, disk, s, rounds).log, jobs[k].id))
  {
    hide RunRounds, LastSeen, LossInv;
    GetJobAt(jobs, k);
    assert jobs[k] in jobs;
    LossStart(z, disk, jobs[k]);
    assert Mine([], jobs[k].id) == [];
    LossRun(z, disk, jobs[k], SendState(jobs, []), rounds);
  }

  /** Main result: in every run no message of a job is a lost block exactly if the compressor failed on none of the
      chunks of its files read so far. */
  lemma NoneLostIff(z: Zstd, disk: Disk, jobs: seq<Job>, rounds: seq<Faults>, k: nat)
    requires Restores(z) && FreshJobs(jobs) && k < |jobs|
    ensures var log := Mine(RunRounds(z, disk, SendState(jobs, []), rounds).log, jobs[k].id);
            NoneLost(z, log) <==> AllSurvive(z, disk, jobs[k], log)
  {
    hide RunRounds, LastSeen, Mine, NoneLost, AllSurvive;
    LossOfRun(z, disk, jobs, rounds, k);
  }

  lemma ClosedWithoutErrors(z: Zstd, src: Disk, r0: Job, log: seq<Msg>, i: nat)
    requires i < |r0.files| && Outcome(z, src, r0, log, i) && NoErrors(log)
    ensures Closing(r0.id, i) in log && HasBlock(log, i)
  {
    assert IsBlockOf(Closing(r0.id, i), i);
  }

  /** And once a job has ended without an error, exactly if it failed on no block of any of its files. */
  lemma NoneLostAtEndIff(z: Zstd, disk: Disk, jobs: seq<Job>, rounds: seq<Faults>, k: nat)
    requires Restores(z) && FreshJobs(jobs) && k < |jobs|
    requires var end := RunRounds(z, disk, SendState(jobs, []), rounds);
             GetJob(jobs[k].id, end.jobs).None? && NoErrors(Mine(end.log, jobs[k].id))
    ensures var log := Mine(RunRounds(z, disk, SendState(jobs, []), rounds).log, jobs[k].id);
            AllSurvive(z, disk, jobs[k], log)
            <==> forall i | 0 <= i < |jobs[k].files| ::
                   NoBlockLost(z, jobs[k].files[i].name, ContentOf(disk, FinalPath(jobs[k], i)))
  {
    hide RunRounds, LastSeen, Mine, NoneLost, GetJob, FreshJobs, Outcome, NoErrors, SentBlocks, Survives, Join, InOrder,
         Dones, BlockCount, ContentOf, ChunkAt;
    var log := Mine(RunRounds(z, disk, SendState(jobs, []), rounds).log, jobs[k].id);
    LossOfRun(z, disk, jobs, rounds, k);
    RunTracksEveryJob(z, disk, jobs, rounds, k);
    forall i: nat | i < |jobs[k].files|
      ensures SentBlocks(log, jobs[k].id, i) == BlockCount(|ContentOf(disk, FinalPath(jobs[k], i))|)
    {
      assert Outcome(z, disk, jobs[k], log, i);
      ClosedWithoutErrors(z, disk, jobs[k], log, i);
    }
    AllSent(z, disk, jobs[k], log);
  }

  lemma AllSent(z: Zstd, disk: Disk, j0: Job, log: seq<Msg>)
    requires forall i: nat | i < |j0.files| ::
               SentBlocks(log, j0.id, i) == BlockCount(|ContentOf(disk, FinalPath(j0, i))|)
    ensures AllSurvive(z, disk, j0, log)
        <==> forall i | 0 <= i < |j0.files| ::
               NoBlockLost(z, j0.files[i].name, ContentOf(disk, FinalPath(j0, i)))
  {
    hide Survives, SentBlocks, Join, BlockCount, ContentOf, ChunkAt;
    if AllSurvive(z, disk, j0, log) {
      forall i, n: nat | 0 <= i < |j0.files| && n < BlockCount(|ContentOf(disk, FinalPath(j0, i))|)
        ensures Survives(z, j0.files[i].name, ChunkAt(ContentOf(disk, FinalPath(j0, i)), n * BUF_SIZE))
      {
        assert ChunkSurvives(z, disk, j0, i, n);
      }
    }
  }
}
