/** `handle_read_jobs` in place: every job is read once and its message sent, then the jobs that came
    to their end are removed. */
module Multiplexer {
  import opened Octets
  import opened Channel
  import opened Compression
  import opened Transfer
  import opened JobLog
  import opened Reader
  import opened ReadJobs
  import opened Progress

  ghost function Values(jobs: seq<TransferJob>): (r: seq<Job>)
    reads jobs
    ensures |r| == |jobs| && forall k | 0 <= k < |jobs| :: r[k] == jobs[k].Value()
  {
    if jobs == [] then [] else [jobs[0].Value()] + Values(jobs[1..])
  }

  lemma {:induction false} SendManySnoc(cipher: Cipher, e: Endpoint, msgs: seq<Bytes>, m: Bytes)
    ensures var s := SendMany(cipher, e, msgs);
            var last := Send(cipher, s.endpoint, m);
            SendMany(cipher, e, msgs + [m]) == Sent(s.ok && last.ok, last.endpoint, s.wire + last.wire)
    decreases msgs
  {
    hide Send;
    if msgs == [] {
      assert [] + [m] == [m];
      var last := Send(cipher, e, m);
      assert SendMany(cipher, last.endpoint, [m][1..]) == Sent(true, last.endpoint, []);
      assert [] + last.wire == last.wire && last.wire + [] == last.wire;
    } else {
      var first := Send(cipher, e, msgs[0]);
      SendManySnoc(cipher, first.endpoint, msgs[1..], m);
      assert (msgs + [m])[1..] == msgs[1..] + [m];
      var rest := SendMany(cipher, first.endpoint, msgs[1..]);
      var last := Send(cipher, rest.endpoint, m);
      assert first.wire + (rest.wire + last.wire) == (first.wire + rest.wire) + last.wire;
    }
  }

  lemma {:induction false} FinishedIdsSnoc(msgs: seq<Msg>, m: Msg)
    ensures FinishedIds(msgs + [m]) == FinishedIds(msgs) + (if m.MDone? then [m.id] else [])
    decreases msgs
  {
    if msgs == [] {
      assert [] + [m] == [m];
      assert FinishedIds([m][1..]) == [];
    } else {
      FinishedIdsSnoc(msgs[1..], m);
      assert (msgs + [m])[1..] == msgs[1..] + [m];
    }
  }

  lemma {:induction false} RemoveJobSnoc(id: int, jobs: seq<Job>, j: Job)
    ensures RemoveJob(id, jobs + [j]) == RemoveJob(id, jobs) + (if j.id != id then [j] else [])
    decreases jobs
  {
    if jobs == [] {
      assert [] + [j] == [j];
      assert RemoveJob(id, [j][1..]) == [];
    } else {
      RemoveJobSnoc(id, jobs[1..], j);
      assert (jobs + [j])[1..] == jobs[1..] + [j];
    }
  }

  lemma ValuesNil()
    ensures Values([]) == []
  {
  }

  lemma ValuesSnoc(jobs: seq<TransferJob>, j: TransferJob)
    ensures Values(jobs + [j]) == Values(jobs) + [j.Value()]
  {
  }

  /** `remove_job`: keeps the jobs with another id, in order. */
  method Remove(id: int, jobs: seq<TransferJob>) returns (left: seq<TransferJob>)
    ensures Values(left) == RemoveJob(id, Values(jobs))
    ensures forall j <- left :: j in jobs
  {
    hide Values;
    left := [];
    ghost var was := Values(jobs);
    ValuesNil();
    for k := 0 to |jobs|
      invariant Values(left) == RemoveJob(id, was[..k])
      invariant forall j <- left :: j in jobs
    {
      assert was[..k + 1] == was[..k] + [was[k]];
      RemoveJobSnoc(id, was[..k], was[k]);
      if jobs[k].id != id {
        ValuesSnoc(left, jobs[k]);
        left := left + [jobs[k]];
      }
    }
    assert was[..|jobs|] == was;
  }

  method RemoveAll(finished: seq<int>, jobs: seq<TransferJob>) returns (left: seq<TransferJob>)
    ensures Values(left) == RemoveJobs(finished, Values(jobs))
    ensures forall j <- left :: j in jobs
  {
    hide Values, RemoveJob;
    left := jobs;
    for k := 0 to |finished|
      invariant RemoveJobs(finished[k..], Values(left)) == RemoveJobs(finished, Values(jobs))
      invariant forall j <- left :: j in jobs
    {
      assert finished[k..][1..] == finished[k + 1..];
      left := Remove(finished[k], left);
    }
  }

  /** `get_job`: the first job with the id. */
  method FindJob(id: int, jobs: seq<TransferJob>) returns (job: TransferJob?)
    ensures match GetJob(id, Values(jobs))
            case None => job == null
            case Some(j) => job != null && job in jobs && job.Value() == j
  {
    for k := 0 to |jobs|
      invariant GetJob(id, Values(jobs)) == GetJob(id, Values(jobs)[k..])
    {
      assert Values(jobs)[k..][1..] == Values(jobs)[k + 1..];
      if jobs[k].id == id {
        return jobs[k];
      }
    }
    return null;
  }

  /** The message for the outcome of one read. */
  method MessageFor(job: TransferJob, r: ReadResult) returns (m: Msg)
    ensures m == match r
                 case Cut(b) => MBlock(b)
                 case Failed(f) => MError(job.id, f, job.fileNum)
                 case Exhausted => MDone(job.id, job.fileNum)
  {
    match r {
      case Cut(b) => m := MBlock(b);
      case Failed(f) => m := MError(job.id, f, job.fileNum);
      case Exhausted => m := MDone(job.id, job.fileNum);
    }
  }

  /** What the messages make of a stream that stood at `e` with `out` already written. */
  ghost predicate SentSoFar(stream: FramedStream, format: Format, e: Endpoint, out: Bytes, msgs: seq<Msg>)
    reads stream, stream.codec, stream.readBuffer, stream.tcp
  {
    var s := SendMany(stream.cipher, e, SerializeAll(format, msgs));
    stream.Value() == s.endpoint && stream.tcp.outbound == out + s.wire
  }

  /** No send of them is refused. */
  ghost predicate AllTaken(cipher: Cipher, format: Format, e: Endpoint, msgs: seq<Msg>) {
    SendMany(cipher, e, SerializeAll(format, msgs)).ok
  }

  method SendMessage(stream: FramedStream, format: Format, m: Msg,
                     ghost e: Endpoint, ghost out: Bytes, ghost msgs: seq<Msg>) returns (ok: bool)
    requires SentSoFar(stream, format, e, out, msgs)
    modifies stream, stream.tcp
    ensures SentSoFar(stream, format, e, out, msgs + [m])
    ensures AllTaken(stream.cipher, format, e, msgs + [m]) <==> AllTaken(stream.cipher, format, e, msgs) && ok
  {
    hide Send, SendMany;
    ghost var before := SendMany(stream.cipher, e, SerializeAll(format, msgs));
    ghost var last := Send(stream.cipher, before.endpoint, format.serialize(m));
    SendManySnoc(stream.cipher, e, SerializeAll(format, msgs), format.serialize(m));
    assert SerializeAll(format, msgs + [m]) == SerializeAll(format, msgs) + [format.serialize(m)];
    ok := stream.SendRaw(format.serialize(m));
    assert (out + before.wire) + last.wire == out + (before.wire + last.wire);
  }

  /** One turn of a job: it is read, and what comes of it is sent. */
  method ReadOne(z: Zstd, fs: FileSystem, job: TransferJob, stream: FramedStream, format: Format,
                 ghost e: Endpoint, ghost out: Bytes, ghost msgs: seq<Msg>)
      returns (m: Msg, ok: bool, ghost fault: Option<Fault>)
    requires SentSoFar(stream, format, e, out, msgs)
    modifies job, stream, stream.tcp
    ensures (job.Value(), m) == StepJob(z, fs.disk, old(job.Value()), fault)
    ensures SentSoFar(stream, format, e, out, msgs + [m])
    ensures AllTaken(stream.cipher, format, e, msgs + [m]) <==> AllTaken(stream.cipher, format, e, msgs) && ok
  {
    hide StepJob, SendMany, ReadBlock, SentSoFar, AllTaken;
    ghost var was := job.Value();
    var r := job.Read(z, fs);
    fault := FaultIn(r);
    m := MessageFor(job, r);
    StepIsRead(z, fs.disk, was, r, job.Value(), m);
    ok := SendMessage(stream, format, m, e, out, msgs);
  }

  /** The jobs after their first turns: those that had one are stepped. */
  ghost function AfterTurns(z: Zstd, disk: Disk, jobs: seq<Job>, faults: seq<Option<Fault>>): seq<Job>
    requires |faults| <= |jobs|
  {
    StepAll(z, disk, jobs[..|faults|], faults) + jobs[|faults|..]
  }

  ghost function TurnMessages(z: Zstd, disk: Disk, jobs: seq<Job>, faults: seq<Option<Fault>>): (r: seq<Msg>)
    requires |faults| <= |jobs|
    ensures |r| == |faults|
  {
    StepMessages(z, disk, jobs[..|faults|], faults)
  }

  /** Reads every job once and sends what comes of it, up to the first send that is refused: the job
      whose message that was has had its turn, and those behind it have not. */
  method ReadAndSend(z: Zstd, fs: FileSystem, jobs: seq<TransferJob>, stream: FramedStream, format: Format)
      returns (finished: seq<int>, ok: bool, ghost faults: seq<Option<Fault>>)
    requires forall a, b | 0 <= a < b < |jobs| :: jobs[a] != jobs[b]
    modifies jobs, stream, stream.tcp
    ensures |faults| <= |jobs| && (ok ==> |faults| == |jobs|) && (!ok ==> faults != [])
    ensures Values(jobs) == AfterTurns(z, fs.disk, old(Values(jobs)), faults)
    ensures var msgs := TurnMessages(z, fs.disk, old(Values(jobs)), faults);
            && SentSoFar(stream, format, old(stream.Value()), old(stream.tcp.outbound), msgs)
            && (ok <==> AllTaken(stream.cipher, format, old(stream.Value()), msgs))
            && (!ok ==> AllTaken(stream.cipher, format, old(stream.Value()), msgs[..|faults| - 1]))
            && (ok ==> finished == FinishedIds(msgs))
  {
    hide StepJob, SendMany, ReadBlock, SentSoFar, AllTaken, Values, FinishedIds, AfterTurns, TurnMessages;
    ghost var was := Values(jobs);
    ghost var e, out := stream.Value(), stream.tcp.outbound;
    ghost var msgs: seq<Msg> := [];
    finished, faults, ok := [], [], true;
    NothingSent(stream, format);
    NoneFinished();
    for k := 0 to |jobs|
      invariant ok && |faults| == k == |msgs|
      invariant forall l | 0 <= l < k :: jobs[l].Value() == StepJob(z, fs.disk, was[l], faults[l]).0
      invariant forall l | 0 <= l < k :: msgs[l] == StepJob(z, fs.disk, was[l], faults[l]).1
      invariant forall l | k <= l < |jobs| :: jobs[l].Value() == was[l]
      invariant finished == FinishedIds(msgs)
      invariant SentSoFar(stream, format, e, out, msgs) && AllTaken(stream.cipher, format, e, msgs)
    {
      var m;
      ghost var fault;
      m, ok, fault := ReadOne(z, fs, jobs[k], stream, format, e, out, msgs);
      FinishedIdsSnoc(msgs, m);
      faults, msgs := faults + [fault], msgs + [m];
      if !ok {
        TurnsAre(z, fs.disk, was, faults, Values(jobs), msgs);
        assert msgs[..k] + [m] == msgs;
        return;
      }
      if m.MDone? {
        finished := finished + [m.id];
      }
    }
    TurnsAre(z, fs.disk, was, faults, Values(jobs), msgs);
  }

  lemma TurnsAre(z: Zstd, disk: Disk, was: seq<Job>, faults: seq<Option<Fault>>, now: seq<Job>, msgs: seq<Msg>)
    requires |faults| == |msgs| <= |was| == |now|
    requires forall k | 0 <= k < |faults| :: (now[k], msgs[k]) == StepJob(z, disk, was[k], faults[k])
    requires forall k | |faults| <= k < |was| :: now[k] == was[k]
    ensures now == AfterTurns(z, disk, was, faults) && msgs == TurnMessages(z, disk, was, faults)
  {
    hide StepJob;
  }

  lemma AllTurns(z: Zstd, disk: Disk, was: seq<Job>, faults: seq<Option<Fault>>)
    requires |faults| == |was|
    ensures AfterTurns(z, disk, was, faults) == StepAll(z, disk, was, faults)
    ensures TurnMessages(z, disk, was, faults) == StepMessages(z, disk, was, faults)
  {
    hide StepAll, StepMessages;
    assert was[..|faults|] == was;
    assert StepAll(z, disk, was, faults) + was[|faults|..] == StepAll(z, disk, was, faults);
  }

  /** One round, for the faults the file system happened to commit. When every send is taken, what was
      sent and what is left are those of `StepRound`; when one is refused, nothing is removed. */
  method HandleReadJobs(z: Zstd, fs: FileSystem, jobs: seq<TransferJob>, stream: FramedStream, format: Format)
      returns (left: seq<TransferJob>, ok: bool, ghost faults: seq<Option<Fault>>)
    requires forall a, b | 0 <= a < b < |jobs| :: jobs[a] != jobs[b]
    modifies jobs, stream, stream.tcp
    ensures |faults| <= |jobs| && (ok ==> |faults| == |jobs|) && (!ok ==> faults != [])
    ensures forall j <- left :: j in jobs
    ensures ok ==> Values(left) == StepRound(z, fs.disk, old(Values(jobs)), faults)
    ensures !ok ==> left == jobs && Values(left) == AfterTurns(z, fs.disk, old(Values(jobs)), faults)
    ensures var msgs := TurnMessages(z, fs.disk, old(Values(jobs)), faults);
            && SentSoFar(stream, format, old(stream.Value()), old(stream.tcp.outbound), msgs)
            && (ok <==> AllTaken(stream.cipher, format, old(stream.Value()), msgs))
            && (!ok ==> AllTaken(stream.cipher, format, old(stream.Value()), msgs[..|faults| - 1]))
  {
    hide SentSoFar, AllTaken, Values, FinishedIds, StepAll, StepMessages, RemoveJobs, AfterTurns, TurnMessages;
    ghost var was := Values(jobs);
    var finished;
    finished, ok, faults := ReadAndSend(z, fs, jobs, stream, format);
    left := jobs;
    if ok {
      AllTurns(z, fs.disk, was, faults);
      left := RemoveAll(finished, jobs);
    }
  }

  // ---------------------------------------------------------------------------------------
  // Round after round

  /** Rounds until every job has ended: what is left and what is on the stream are those of the run of as
      many rounds, so all that is proved of runs holds of it. A refused send ends it in the middle
      of a round. */
  method SendEverything(z: Zstd, fs: FileSystem, jobs: seq<TransferJob>, stream: FramedStream, format: Format)
      returns (left: seq<TransferJob>, ok: bool, ghost rounds: seq<Faults>, ghost broken: seq<Option<Fault>>)
    requires Runnable(Values(jobs))
    modifies jobs, stream, stream.tcp
    ensures ok <==> broken == []
    ensures var end := RunRounds(z, fs.disk, SendState(old(Values(jobs)), []), rounds);
            && |broken| <= |end.jobs|
            && Values(left) == AfterTurns(z, fs.disk, end.jobs, broken)
            && SentSoFar(stream, format, old(stream.Value()), old(stream.tcp.outbound),
                         end.log + TurnMessages(z, fs.disk, end.jobs, broken))
            && (ok ==> end.jobs == [] && AllTaken(stream.cipher, format, old(stream.Value()), end.log))
  {
    hide SentSoFar, AllTaken, Values, StepAll, StepMessages, RunRounds, Runnable, StepRound, SendMany, SerializeAll,
         AfterTurns, TurnMessages, DistinctIds, AllLeft;
    ghost var s0 := SendState(Values(jobs), []);
    ghost var e, out := stream.Value(), stream.tcp.outbound;
    left, rounds, broken, ok := jobs, [], [], true;
    NothingSent(stream, format);
    NoRounds(z, fs.disk, s0);
    while left != []
      invariant ok && broken == []
      invariant forall j <- left :: j in jobs
      invariant Values(left) == RunRounds(z, fs.disk, s0, rounds).jobs && Runnable(Values(left))
      invariant SentSoFar(stream, format, e, out, RunRounds(z, fs.disk, s0, rounds).log)
      invariant AllTaken(stream.cipher, format, e, RunRounds(z, fs.disk, s0, rounds).log)
      decreases AllLeft(fs.disk, Values(left))
    {
      ghost var s := RunRounds(z, fs.disk, s0, rounds);
      ghost var e1, out1 := stream.Value(), stream.tcp.outbound;
      SentIs(stream, format, e, out, s.log);
      DistinctObjects(left);
      ghost var faults;
      assert forall k | 0 <= k < |left| :: left[k] in left && left[k] in jobs;
      left, ok, faults := HandleReadJobs(z, fs, left, stream, format);
      ghost var news := TurnMessages(z, fs.disk, s.jobs, faults);
      SentOnTop(stream, format, e, out, s.log, e1, out1, news);
      if !ok {
        broken := faults;
        return;
      }
      ghost var byId := OneRound(z, fs.disk, s, faults);
      RunRoundsSnoc(z, fs.disk, s0, rounds, byId);
      RoundKeepsRunnable(z, fs.disk, s.jobs, byId);
      rounds := rounds + [byId];
    }
    ghost var end := RunRounds(z, fs.disk, s0, rounds);
    NoTurns(z, fs.disk, end);
  }

  lemma NoTurns(z: Zstd, disk: Disk, s: SendState)
    ensures AfterTurns(z, disk, s.jobs, []) == s.jobs
    ensures s.log + TurnMessages(z, disk, s.jobs, []) == s.log
  {
  }

  lemma SentIs(stream: FramedStream, format: Format, e: Endpoint, out: Bytes, msgs: seq<Msg>)
    requires SentSoFar(stream, format, e, out, msgs)
    ensures var s := SendMany(stream.cipher, e, SerializeAll(format, msgs));
            stream.Value() == s.endpoint && stream.tcp.outbound == out + s.wire
  {
  }

  /** Distinct ids, and open files in place: what `FreshJobs` provides and every round keeps. */
  ghost predicate Runnable(jobs: seq<Job>) {
    DistinctIds(jobs) && forall k | 0 <= k < |jobs| :: HandleOnFile(jobs[k])
  }

  lemma DistinctObjects(jobs: seq<TransferJob>)
    requires Runnable(Values(jobs))
    ensures DistinctIds(Values(jobs))
    ensures forall a, b | 0 <= a < b < |jobs| :: jobs[a] != jobs[b]
  {
    hide Values, HandleOnFile;
    forall a, b | 0 <= a < b < |jobs| ensures jobs[a] != jobs[b] {
      assert Values(jobs)[a].id != Values(jobs)[b].id;
    }
  }

  lemma {:induction false} RunRoundsSnoc(z: Zstd, disk: Disk, s: SendState, rounds: seq<Faults>, f: Faults)
    ensures RunRounds(z, disk, s, rounds + [f]) == AfterRound(z, disk, RunRounds(z, disk, s, rounds), f)
    decreases rounds
  {
    hide AfterRound;
    if rounds == [] {
      assert [] + [f] == [f];
      NoRounds(z, disk, AfterRound(z, disk, s, f));
    } else {
      assert (rounds + [f])[1..] == rounds[1..] + [f];
      RunRoundsSnoc(z, disk, AfterRound(z, disk, s, rounds[0]), rounds[1..], f);
    }
  }

  /** A call with all sends taken is a round. */
  lemma OneRound(z: Zstd, disk: Disk, s: SendState, faults: seq<Option<Fault>>) returns (byId: Faults)
    requires DistinctIds(s.jobs) && |faults| == |s.jobs|
    ensures AfterRound(z, disk, s, byId)
         == SendState(StepRound(z, disk, s.jobs, faults), s.log + TurnMessages(z, disk, s.jobs, faults))
  {
    hide StepRound, StepMessages;
    byId := FaultsById(s.jobs, faults);
    assert s.jobs[..|faults|] == s.jobs;
  }

  lemma {:induction false} SendManyAppend(cipher: Cipher, e: Endpoint, a: seq<Bytes>, b: seq<Bytes>)
    ensures var first := SendMany(cipher, e, a);
            var second := SendMany(cipher, first.endpoint, b);
            SendMany(cipher, e, a + b) == Sent(first.ok && second.ok, second.endpoint, first.wire + second.wire)
    decreases a
  {
    hide Send;
    if a == [] {
      assert [] + b == b;
      var all := SendMany(cipher, e, b);
      assert [] + all.wire == all.wire;
    } else {
      var one := Send(cipher, e, a[0]);
      SendManyAppend(cipher, one.endpoint, a[1..], b);
      assert (a + b)[1..] == a[1..] + b;
      var rest := SendMany(cipher, one.endpoint, a[1..]);
      var second := SendMany(cipher, rest.endpoint, b);
      assert one.wire + (rest.wire + second.wire) == (one.wire + rest.wire) + second.wire;
    }
  }

  lemma SentOnTop(stream: FramedStream, format: Format, e: Endpoint, out: Bytes, msgs: seq<Msg>,
                  e1: Endpoint, out1: Bytes, news: seq<Msg>)
    requires var s := SendMany(stream.cipher, e, SerializeAll(format, msgs));
             e1 == s.endpoint && out1 == out + s.wire
    requires SentSoFar(stream, format, e1, out1, news)
    ensures SentSoFar(stream, format, e, out, msgs + news)
    ensures AllTaken(stream.cipher, format, e, msgs + news)
        <==> AllTaken(stream.cipher, format, e, msgs) && AllTaken(stream.cipher, format, e1, news)
  {
    hide SendMany;
    SendManyAppend(stream.cipher, e, SerializeAll(format, msgs), SerializeAll(format, news));
    assert SerializeAll(format, msgs + news) == SerializeAll(format, msgs) + SerializeAll(format, news);
    var s := SendMany(stream.cipher, e, SerializeAll(format, msgs));
    var last := SendMany(stream.cipher, e1, SerializeAll(format, news));
    assert (out + s.wire) + last.wire == out + (s.wire + last.wire);
  }

  /** The rounds all jobs together still need, when nothing fails. */
  ghost function AllLeft(disk: Disk, jobs: seq<Job>): nat {
    if jobs == [] then 0 else RoundsLeft(disk, jobs[0]) + AllLeft(disk, jobs[1..])
  }

  lemma {:induction false} AllLeftDrops(disk: Disk, ids: seq<int>, stepped: seq<Job>, jobs: seq<Job>)
    requires |stepped| == |jobs|
    requires forall k | 0 <= k < |jobs| ::
               stepped[k].id in ids || RoundsLeft(disk, stepped[k]) + 1 <= RoundsLeft(disk, jobs[k])
    ensures AllLeft(disk, Without(ids, stepped)) + |jobs| <= AllLeft(disk, jobs)
    decreases jobs
  {
    hide RoundsLeft;
    if jobs != [] {
      RoundsLeftPositive(disk, jobs[0]);
      AllLeftDrops(disk, ids, stepped[1..], jobs[1..]);
      var rest := Without(ids, stepped[1..]);
      assert ([stepped[0]] + rest)[1..] == rest;
      assert [] + rest == rest;
    }
  }

  /** A round keeps the jobs runnable and uses up a round of each. */
  lemma RoundKeepsRunnable(z: Zstd, disk: Disk, jobs: seq<Job>, faults: Faults)
    requires Runnable(jobs)
    ensures Runnable(Round(z, disk, jobs, faults))
    ensures AllLeft(disk, Round(z, disk, jobs, faults)) + |jobs| <= AllLeft(disk, jobs)
  {
    hide StepJob, RoundsLeft, HandleOnFile, Without, RemoveJobs, FinishedIds, DistinctIds, AllLeft;
    var stepped := StepAll(z, disk, jobs, Assign(jobs, faults));
    var msgs := RoundMessages(z, disk, jobs, faults);
    var ids := FinishedIds(msgs);
    RemoveJobsIsFilter(ids, stepped);
    RoundForJob(z, disk, jobs, faults, 0);
    forall k | 0 <= k < |jobs|
      ensures HandleOnFile(stepped[k])
      ensures stepped[k].id in ids || RoundsLeft(disk, stepped[k]) + 1 <= RoundsLeft(disk, jobs[k])
    {
      StepUsesRound(z, disk, jobs[k], FaultOf(faults, jobs[k].id));
      ReadBlockKeepsId(z, disk, jobs[k], FaultOf(faults, jobs[k].id));
      FinishedIdsAre(msgs, jobs[k].id);
      assert msgs[k] == StepJob(z, disk, jobs[k], FaultOf(faults, jobs[k].id)).1;
    }
    AllLeftDrops(disk, ids, stepped, jobs);
    var left := Without(ids, stepped);
    forall k | 0 <= k < |left| ensures HandleOnFile(left[k]) {
      WithoutMembers(ids, stepped, left[k]);
    }
  }

  lemma NoneFinished()
    ensures FinishedIds([]) == []
  {
  }

  lemma NothingSent(stream: FramedStream, format: Format)
    ensures SentSoFar(stream, format, stream.Value(), stream.tcp.outbound, [])
    ensures AllTaken(stream.cipher, format, stream.Value(), [])
  {
    assert SerializeAll(format, []) == [];
    assert stream.tcp.outbound + [] == stream.tcp.outbound;
  }

  lemma StepIsRead(z: Zstd, disk: Disk, was: Job, r: ReadResult, now: Job, m: Msg)
    requires (now, r) == ReadBlock(z, disk, was, FaultIn(r))
    requires m == match r
                  case Cut(b) => MBlock(b)
                  case Failed(f) => MError(now.id, f, now.fileNum)
                  case Exhausted => MDone(now.id, now.fileNum)
    ensures (now, m) == StepJob(z, disk, was, FaultIn(r))
  {
  }
}
