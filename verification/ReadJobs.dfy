/** The sending side: `handle_read_jobs` steps every job once per round and sends one message for
    each. The messages sent so far are the log; what a run achieves is said about the log. */
module ReadJobs {
  import opened Octets
  import opened Compression
  import opened Transfer
  import opened JobLog
  import opened Reader

  /** Which jobs, by id, the file system fails in a round. */
  type Faults = map<int, Fault>

  function FaultOf(faults: Faults, id: int): Option<Fault> {
    if id in faults then Some(faults[id]) else None
  }

  // ---------------------------------------------------------------------------------------
  // One round

  function RemoveJob(id: int, jobs: seq<Job>): seq<Job> {
    if jobs == [] then []
    else (if jobs[0].id != id then [jobs[0]] else []) + RemoveJob(id, jobs[1..])
  }

  function RemoveJobs(ids: seq<int>, jobs: seq<Job>): seq<Job> {
    if ids == [] then jobs else RemoveJobs(ids[1..], RemoveJob(ids[0], jobs))
  }

  function GetJob(id: int, jobs: seq<Job>): Option<Job> {
    var k := JobIndex(id, jobs);
    if k < |jobs| then Some(jobs[k]) else None
  }

  function StepAll(z: Zstd, disk: Disk, jobs: seq<Job>, faults: seq<Option<Fault>>): (r: seq<Job>)
    requires |faults| == |jobs|
    ensures |r| == |jobs|
  {
    seq(|jobs|, k requires 0 <= k < |jobs| => StepJob(z, disk, jobs[k], faults[k]).0)
  }

  function StepMessages(z: Zstd, disk: Disk, jobs: seq<Job>, faults: seq<Option<Fault>>): (r: seq<Msg>)
    requires |faults| == |jobs|
    ensures |r| == |jobs|
  {
    seq(|jobs|, k requires 0 <= k < |jobs| => StepJob(z, disk, jobs[k], faults[k]).1)
  }

  /** The ids of the jobs that came to their end in a round, in order. */
  function FinishedIds(msgs: seq<Msg>): seq<int> {
    if msgs == [] then []
    else (if msgs[0].MDone? then [msgs[0].id] else []) + FinishedIds(msgs[1..])
  }

  /** One call of `handle_read_jobs` with the given fault, if any, at each job. */
  function StepRound(z: Zstd, disk: Disk, jobs: seq<Job>, faults: seq<Option<Fault>>): seq<Job>
    requires |faults| == |jobs|
  {
    RemoveJobs(FinishedIds(StepMessages(z, disk, jobs, faults)), StepAll(z, disk, jobs, faults))
  }

  function Assign(jobs: seq<Job>, faults: Faults): (r: seq<Option<Fault>>)
    ensures |r| == |jobs|
  {
    seq(|jobs|, k requires 0 <= k < |jobs| => FaultOf(faults, jobs[k].id))
  }

  function Round(z: Zstd, disk: Disk, jobs: seq<Job>, faults: Faults): seq<Job> {
    StepRound(z, disk, jobs, Assign(jobs, faults))
  }

  function RoundMessages(z: Zstd, disk: Disk, jobs: seq<Job>, faults: Faults): seq<Msg> {
    StepMessages(z, disk, jobs, Assign(jobs, faults))
  }

  datatype SendState = SendState(jobs: seq<Job>, log: seq<Msg>)

  function AfterRound(z: Zstd, disk: Disk, s: SendState, faults: Faults): SendState {
    SendState(Round(z, disk, s.jobs, faults), s.log + RoundMessages(z, disk, s.jobs, faults))
  }

  function RunRounds(z: Zstd, disk: Disk, s: SendState, rounds: seq<Faults>): SendState
    decreases rounds
  {
    if rounds == [] then s else RunRounds(z, disk, AfterRound(z, disk, s, rounds[0]), rounds[1..])
  }

  lemma NoRounds(z: Zstd, disk: Disk, s: SendState)
    ensures RunRounds(z, disk, s, []) == s
  {
  }

  /** The job with the id as the run last saw it: still in the list, or as its last turn left it. */
  function LastSeen(z: Zstd, disk: Disk, id: int, s: SendState, rounds: seq<Faults>): Option<Job>
    decreases rounds
  {
    match GetJob(id, s.jobs)
    case None => None
    case Some(j) =>
      if rounds == [] then Some(j)
      else
        var later := LastSeen(z, disk, id, AfterRound(z, disk, s, rounds[0]), rounds[1..]);
        if later.Some? then later else Some(StepJob(z, disk, j, FaultOf(rounds[0], id)).0)
  }

  // ---------------------------------------------------------------------------------------
  // Which jobs stay

  function Without(ids: seq<int>, jobs: seq<Job>): seq<Job> {
    if jobs == [] then []
    else (if jobs[0].id !in ids then [jobs[0]] else []) + Without(ids, jobs[1..])
  }

  lemma {:induction false} WithoutTwice(id: int, ids: seq<int>, jobs: seq<Job>)
    ensures Without(ids, RemoveJob(id, jobs)) == Without([id] + ids, jobs)
    decreases jobs
  {
    if jobs != [] {
      WithoutTwice(id, ids, jobs[1..]);
      if jobs[0].id != id {
        assert ([jobs[0]] + RemoveJob(id, jobs[1..]))[1..] == RemoveJob(id, jobs[1..]);
      } else {
        assert [] + RemoveJob(id, jobs[1..]) == RemoveJob(id, jobs[1..]);
      }
    }
  }

  lemma {:induction false} WithoutNothing(jobs: seq<Job>)
    ensures Without([], jobs) == jobs
  {
    if jobs != [] { WithoutNothing(jobs[1..]); }
  }

  /** Removing one id after the other keeps exactly the jobs with none of the ids, in their order. */
  lemma {:induction false} RemoveJobsIsFilter(ids: seq<int>, jobs: seq<Job>)
    ensures RemoveJobs(ids, jobs) == Without(ids, jobs)
    decreases ids
  {
    if ids == [] {
      WithoutNothing(jobs);
    } else {
      RemoveJobsIsFilter(ids[1..], RemoveJob(ids[0], jobs));
      WithoutTwice(ids[0], ids[1..], jobs);
      assert [ids[0]] + ids[1..] == ids;
    }
  }

  lemma {:induction false} FinishedIdsAre(msgs: seq<Msg>, id: int)
    ensures id in FinishedIds(msgs) <==> exists k :: 0 <= k < |msgs| && msgs[k].MDone? && msgs[k].id == id
  {
    if msgs != [] {
      FinishedIdsAre(msgs[1..], id);
      if id in FinishedIds(msgs) {
        if msgs[0].MDone? && msgs[0].id == id {
        } else {
          var k :| 0 <= k < |msgs[1..]| && msgs[1..][k].MDone? && msgs[1..][k].id == id;
          assert msgs[k + 1] == msgs[1..][k];
        }
      }
      if k :| 0 <= k < |msgs| && msgs[k].MDone? && msgs[k].id == id {
        if k > 0 { assert msgs[1..][k - 1] == msgs[k]; }
      }
    }
  }

  lemma {:induction false} WithoutMembers(ids: seq<int>, jobs: seq<Job>, j: Job)
    ensures j in Without(ids, jobs) <==> j in jobs && j.id !in ids
  {
    if jobs != [] {
      WithoutMembers(ids, jobs[1..], j);
      assert jobs == [jobs[0]] + jobs[1..];
    }
  }

  lemma ReadBlockKeepsId(z: Zstd, disk: Disk, j: Job, fault: Option<Fault>)
    ensures var (j', m) := StepJob(z, disk, j, fault);
            && j'.id == j.id && j'.path == j.path && j'.files == j.files && j'.totalSize == j.totalSize
            && IdOf(m) == j.id
            && (m.MDone? <==> j.fileNum >= |j.files|)
  {
  }

  /** Main result, distinct ids or not: a stepped job is still in the list after the round exactly
      when no job with its id came to its end. So with a duplicated id one job's end removes the
      other, finished or not. */
  lemma StaysIff(z: Zstd, disk: Disk, jobs: seq<Job>, faults: seq<Option<Fault>>, k: nat)
    requires |faults| == |jobs| && k < |jobs|
    ensures StepAll(z, disk, jobs, faults)[k] in StepRound(z, disk, jobs, faults)
        <==> forall l | 0 <= l < |jobs| :: jobs[l].id == jobs[k].id ==> jobs[l].fileNum < |jobs[l].files|
  {
    hide StepJob;
    var stepped := StepAll(z, disk, jobs, faults);
    var msgs := StepMessages(z, disk, jobs, faults);
    RemoveJobsIsFilter(FinishedIds(msgs), stepped);
    WithoutMembers(FinishedIds(msgs), stepped, stepped[k]);
    FinishedIdsAre(msgs, jobs[k].id);
    forall l | 0 <= l < |jobs|
      ensures stepped[l].id == jobs[l].id && IdOf(msgs[l]) == jobs[l].id
      ensures msgs[l].MDone? <==> jobs[l].fileNum >= |jobs[l].files|
    {
      ReadBlockKeepsId(z, disk, jobs[l], faults[l]);
    }
  }

  ghost predicate DistinctIds(jobs: seq<Job>) {
    forall a, b | 0 <= a < b < |jobs| :: jobs[a].id != jobs[b].id
  }

  lemma GetJobAt(jobs: seq<Job>, k: nat)
    requires DistinctIds(jobs) && k < |jobs|
    ensures GetJob(jobs[k].id, jobs) == Some(jobs[k])
  {
    assert jobs[JobIndex(jobs[k].id, jobs)].id == jobs[k].id;
  }

  lemma GetJobNone(jobs: seq<Job>, id: int)
    ensures GetJob(id, jobs).None? ==> forall k | 0 <= k < |jobs| :: jobs[k].id != id
    ensures GetJob(id, jobs).Some? ==> GetJob(id, jobs).value in jobs && GetJob(id, jobs).value.id == id
  {
  }

  lemma GetJobCons(j: Job, rest: seq<Job>, id: int)
    ensures GetJob(id, [j] + rest) == if j.id == id then Some(j) else GetJob(id, rest)
  {
    assert ([j] + rest)[1..] == rest;
  }

  lemma {:induction false} GetJobWithout(ids: seq<int>, jobs: seq<Job>, id: int)
    ensures GetJob(id, Without(ids, jobs)) == if id in ids then None else GetJob(id, jobs)
    decreases jobs
  {
    if jobs != [] {
      hide GetJob;
      var j, rest := jobs[0], jobs[1..];
      assert jobs == [j] + rest;
      GetJobWithout(ids, rest, id);
      GetJobCons(j, rest, id);
      GetJobCons(j, Without(ids, rest), id);
      assert [] + Without(ids, rest) == Without(ids, rest);
    }
  }

  lemma {:induction false} WithoutDistinct(ids: seq<int>, jobs: seq<Job>)
    requires DistinctIds(jobs)
    ensures DistinctIds(Without(ids, jobs))
    decreases jobs
  {
    if jobs != [] {
      assert DistinctIds(jobs[1..]);
      WithoutDistinct(ids, jobs[1..]);
      var rest := Without(ids, jobs[1..]);
      forall j <- rest ensures j.id != jobs[0].id {
        WithoutMembers(ids, jobs[1..], j);
      }
      assert jobs[0].id in ids ==> [] + rest == rest;
    }
  }

  /** A round, seen from one job: it is stepped once, its message is its only one, and it leaves
      exactly if that message is its end. */
  lemma RoundForJob(z: Zstd, disk: Disk, jobs: seq<Job>, faults: Faults, id: int)
    requires DistinctIds(jobs)
    ensures DistinctIds(Round(z, disk, jobs, faults))
    ensures var news := Mine(RoundMessages(z, disk, jobs, faults), id);
            match GetJob(id, jobs)
            case None => news == [] && GetJob(id, Round(z, disk, jobs, faults)) == None
            case Some(j) =>
              var (j', m) := StepJob(z, disk, j, FaultOf(faults, id));
              news == [m] && GetJob(id, Round(z, disk, jobs, faults)) == if m.MDone? then None else Some(j')
  {
    hide StepJob, GetJob, Without, RemoveJobs, FinishedIds, Mine;
    var stepped := StepAll(z, disk, jobs, Assign(jobs, faults));
    var msgs := RoundMessages(z, disk, jobs, faults);
    var ids := FinishedIds(msgs);
    forall l | 0 <= l < |jobs| ensures stepped[l].id == jobs[l].id && IdOf(msgs[l]) == jobs[l].id {
      ReadBlockKeepsId(z, disk, jobs[l], FaultOf(faults, jobs[l].id));
    }
    RemoveJobsIsFilter(ids, stepped);
    WithoutDistinct(ids, stepped);
    GetJobWithout(ids, stepped, id);
    FinishedIdsAre(msgs, id);
    if k :| 0 <= k < |jobs| && jobs[k].id == id {
      GetJobAt(jobs, k);
      GetJobAt(stepped, k);
      MineOne(msgs, k);
    } else {
      GetJobNone(jobs, id);
      GetJobNone(stepped, id);
      MineNone(msgs, id);
    }
  }

  // ---------------------------------------------------------------------------------------
  // Whole runs

  /** Where job `j0` stands: in the list and underway, or gone after its one end message. */
  ghost predicate Tracked(z: Zstd, disk: Disk, j0: Job, s: SendState) {
    var log := Mine(s.log, j0.id);
    match GetJob(j0.id, s.jobs)
    case Some(j) => ReaderInv(z, disk, j0, j, log) && Dones(log) == 0
    case None => Completed(z, disk, j0, log)
  }

  /** Every file of the job has had its outcome, in order, and the job has ended exactly once. */
  ghost predicate Completed(z: Zstd, disk: Disk, j0: Job, log: seq<Msg>) {
    && (forall i | 0 <= i < |j0.files| :: Outcome(z, disk, j0, log, i))
    && InOrder(log, |j0.files|)
    && Dones(log) == 1
  }

  lemma TrackedRound(z: Zstd, disk: Disk, j0: Job, s: SendState, faults: Faults)
    requires Restores(z) && DistinctIds(s.jobs) && Tracked(z, disk, j0, s)
    ensures var s' := AfterRound(z, disk, s, faults);
            DistinctIds(s'.jobs) && Tracked(z, disk, j0, s')
  {
    hide StepJob, GetJob, Round, RoundMessages, Mine, ReaderInv, Completed;
    var msgs := RoundMessages(z, disk, s.jobs, faults);
    RoundForJob(z, disk, s.jobs, faults, j0.id);
    MineAppend(s.log, msgs, j0.id);
    var log := Mine(s.log, j0.id);
    match GetJob(j0.id, s.jobs) {
      case None =>
        assert log + [] == log;
      case Some(j) =>
        var (j', m) := StepJob(z, disk, j, FaultOf(faults, j0.id));
        ReaderStep(z, disk, j0, j, log, FaultOf(faults, j0.id));
        LogSnoc(z, log, m, 0);
        ReadBlockKeepsId(z, disk, j, FaultOf(faults, j0.id));
        if m.MDone? {
          EndOfJob(z, disk, j0, j, log, FaultOf(faults, j0.id));
        }
    }
  }

  lemma EndOfJob(z: Zstd, disk: Disk, j0: Job, j: Job, log: seq<Msg>, fault: Option<Fault>)
    requires ReaderInv(z, disk, j0, j, log) && Dones(log) == 0
    requires var (j', m) := StepJob(z, disk, j, fault); m.MDone? && ReaderInv(z, disk, j0, j', log + [m])
    ensures Completed(z, disk, j0, log + [StepJob(z, disk, j, fault).1])
  {
    hide Outcome, InOrder;
    LogSnoc(z, log, StepJob(z, disk, j, fault).1, 0);
  }

  lemma {:induction false} TrackedRun(z: Zstd, disk: Disk, j0: Job, s: SendState, rounds: seq<Faults>)
    requires Restores(z) && DistinctIds(s.jobs) && Tracked(z, disk, j0, s)
    ensures Tracked(z, disk, j0, RunRounds(z, disk, s, rounds))
    decreases rounds
  {
    hide Tracked, Round, RoundMessages, DistinctIds;
    if rounds != [] {
      TrackedRound(z, disk, j0, s, rounds[0]);
      TrackedRun(z, disk, j0, AfterRound(z, disk, s, rounds[0]), rounds[1..]);
    }
  }

  /** A job that is gone is never seen nor heard of again. */
  lemma {:induction false} StaysGone(z: Zstd, disk: Disk, id: int, s: SendState, rounds: seq<Faults>)
    requires DistinctIds(s.jobs) && GetJob(id, s.jobs).None?
    ensures var end := RunRounds(z, disk, s, rounds);
            GetJob(id, end.jobs).None? && Mine(end.log, id) == Mine(s.log, id)
    decreases rounds
  {
    hide GetJob, Round, RoundMessages, DistinctIds, Mine;
    if rounds != [] {
      RoundForJob(z, disk, s.jobs, rounds[0], id);
      MineAppend(s.log, RoundMessages(z, disk, s.jobs, rounds[0]), id);
      assert Mine(s.log, id) + [] == Mine(s.log, id);
      StaysGone(z, disk, id, AfterRound(z, disk, s, rounds[0]), rounds[1..]);
    }
  }

  /** What a job was when last seen satisfies the reader's invariant for all messages it ever sent. */
  lemma {:induction false} LastSeenTracked(z: Zstd, disk: Disk, j0: Job, s: SendState, rounds: seq<Faults>)
    requires Restores(z) && DistinctIds(s.jobs) && Tracked(z, disk, j0, s) && GetJob(j0.id, s.jobs).Some?
    ensures var end := RunRounds(z, disk, s, rounds);
            var last := LastSeen(z, disk, j0.id, s, rounds);
            && last.Some? && ReaderInv(z, disk, j0, last.value, Mine(end.log, j0.id))
            && (GetJob(j0.id, end.jobs).Some? ==> last == GetJob(j0.id, end.jobs))
            && (GetJob(j0.id, end.jobs).None? ==> last.value.fileNum == |last.value.files|)
    decreases rounds
  {
    hide GetJob, Round, RoundMessages, DistinctIds, Mine, ReaderInv, Completed, StepJob;
    if rounds != [] {
      var j := GetJob(j0.id, s.jobs).value;
      var s' := AfterRound(z, disk, s, rounds[0]);
      var log := Mine(s.log, j0.id);
      RoundForJob(z, disk, s.jobs, rounds[0], j0.id);
      TrackedRound(z, disk, j0, s, rounds[0]);
      MineAppend(s.log, RoundMessages(z, disk, s.jobs, rounds[0]), j0.id);
      if GetJob(j0.id, s'.jobs).Some? {
        LastSeenTracked(z, disk, j0, s', rounds[1..]);
      } else {
        StaysGone(z, disk, j0.id, s', rounds[1..]);
        ReaderStep(z, disk, j0, j, log, FaultOf(rounds[0], j0.id));
        LastTurn(z, disk, j0, j, log, FaultOf(rounds[0], j0.id));
        assert LastSeen(z, disk, j0.id, s', rounds[1..]).None?;
      }
    }
  }

  lemma LastTurn(z: Zstd, disk: Disk, j0: Job, j: Job, log: seq<Msg>, fault: Option<Fault>)
    requires ReaderInv(z, disk, j0, j, log) && StepJob(z, disk, j, fault).1.MDone?
    ensures var j' := StepJob(z, disk, j, fault).0; j'.fileNum == |j'.files|
  {
    hide Outcome, InOrder, InProgress, CountersMatch;
  }

  /** With distinct ids, faults by position are faults by id: what one call of the multiplexer suffered is
      one of the rounds a run is made of. */
  lemma FaultsById(jobs: seq<Job>, faults: seq<Option<Fault>>) returns (byId: Faults)
    requires DistinctIds(jobs) && |faults| == |jobs|
    ensures Assign(jobs, byId) == faults
    ensures forall id | id in byId :: exists k :: 0 <= k < |jobs| && jobs[k].id == id && faults[k] == Some(byId[id])
  {
    byId := map k | 0 <= k < |jobs| && faults[k].Some? :: jobs[k].id := faults[k].value;
    forall k | 0 <= k < |jobs| ensures FaultOf(byId, jobs[k].id) == faults[k] {
      assert jobs[k].id in byId <==> faults[k].Some?;
    }
  }

  ghost predicate FreshJobs(jobs: seq<Job>) {
    && DistinctIds(jobs)
    && forall j <- jobs :: j == NewJob(j.id, j.path, j.files)
  }

  /** Main result: in any run from fresh jobs with distinct ids, through any number of rounds with any faults,
      each job is either underway, every file behind it accounted for by its messages and its
      counters equal to what they carry, or gone with every file accounted for and one end message. */
  lemma RunTracksEveryJob(z: Zstd, disk: Disk, jobs: seq<Job>, rounds: seq<Faults>, k: nat)
    requires Restores(z) && FreshJobs(jobs) && k < |jobs|
    ensures Tracked(z, disk, jobs[k], RunRounds(z, disk, SendState(jobs, []), rounds))
  {
    hide ReaderInv;
    var j := jobs[k];
    GetJobAt(jobs, k);
    assert j in jobs;
    ReaderStart(z, disk, j.id, j.path, j.files);
    TrackedRun(z, disk, j, SendState(jobs, []), rounds);
  }
}
