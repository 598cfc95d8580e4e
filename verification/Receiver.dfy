/** The receiving side: each message goes to the job with its id, a block to `write` and the end of
    the job to `modify_time`, whatever has become of the messages before it. */
module Receiver {
  import opened Octets
  import opened Compression
  import opened Transfer
  import opened JobLog
  import opened Staging
  import opened Landing

  /** The fault, if any, the file system commits at each message. */
  type WriteFaults = nat -> Option<WriteFault>

  const NO_FAULTS: WriteFaults := (_: nat) => None

  datatype RecvState = RecvState(jobs: seq<Job>, disk: Disk)

  function Dispatch(z: Zstd, s: RecvState, m: Msg, fault: Option<WriteFault>): RecvState {
    var k := JobIndex(IdOf(m), s.jobs);
    if k == |s.jobs| then s
    else
      match m
      case MBlock(b) =>
        var (j, disk, _) := WriteBlock(z, s.jobs[k], s.disk, b, fault);
        RecvState(s.jobs[k := j], disk)
      case MDone(_, _) =>
        var (j, disk) := Publish(s.jobs[k], s.disk);
        RecvState(s.jobs[k := j], disk)
      case MError(_, _, _) => s
  }

  function DispatchAll(z: Zstd, s: RecvState, msgs: seq<Msg>, faults: WriteFaults): RecvState {
    if msgs == [] then s
    else
      var n := |msgs| - 1;
      Dispatch(z, DispatchAll(z, s, msgs[..n], faults), msgs[n], faults(n))
  }

  /** The messages of one job, each with its fault. */
  function EventsOf(msgs: seq<Msg>, faults: WriteFaults, id: int): seq<Event> {
    if msgs == [] then []
    else
      var n := |msgs| - 1;
      EventsOf(msgs[..n], faults, id) + (if IdOf(msgs[n]) == id then [Event(msgs[n], faults(n))] else [])
  }

  lemma EventsOfSnoc(msgs: seq<Msg>, m: Msg, faults: WriteFaults, id: int)
    ensures EventsOf(msgs + [m], faults, id)
         == EventsOf(msgs, faults, id) + (if IdOf(m) == id then [Event(m, faults(|msgs|))] else [])
  {
    assert (msgs + [m])[..|msgs|] == msgs;
  }

  lemma {:induction false} EventsAreMine(msgs: seq<Msg>, faults: WriteFaults, id: int)
    ensures Messages(EventsOf(msgs, faults, id)) == Mine(msgs, id)
    decreases |msgs|
  {
    if msgs != [] {
      EventsAreMine(msgs[..|msgs| - 1], faults, id);
    }
  }

  lemma {:induction false} NoFaultEvents(msgs: seq<Msg>, id: int)
    ensures forall e <- EventsOf(msgs, NO_FAULTS, id) :: e.fault.None?
    decreases |msgs|
  {
    if msgs != [] { NoFaultEvents(msgs[..|msgs| - 1], id); }
  }

  /** The receiving jobs `jobs0`: fresh, with distinct ids, distinct final names and disjoint destinations. */
  ghost predicate FreshReceivers(jobs0: seq<Job>) {
    && (forall k | 0 <= k < |jobs0| ::
          jobs0[k] == NewJob(jobs0[k].id, jobs0[k].path, jobs0[k].files) && DistinctFinals(jobs0[k]))
    && (forall a, b | 0 <= a < |jobs0| && 0 <= b < |jobs0| && a != b ::
          jobs0[a].id != jobs0[b].id && DisjointJobs(jobs0[a], jobs0[b]))
  }

  /** The messages of every job come in order and end with its end, if at all. */
  ghost predicate WellFormedLog(jobs0: seq<Job>, msgs: seq<Msg>) {
    forall k | 0 <= k < |jobs0| ::
      InOrder(Mine(msgs, jobs0[k].id), |jobs0[k].files|) && Dones(Mine(msgs, jobs0[k].id)) <= 1
  }

  ghost predicate ReceiverInv(z: Zstd, jobs0: seq<Job>, disk0: Disk, s: RecvState, msgs: seq<Msg>,
                              faults: WriteFaults) {
    && |s.jobs| == |jobs0|
    && forall k | 0 <= k < |jobs0| ::
         JobInv(z, jobs0[k], disk0, s.jobs[k], s.disk, EventsOf(msgs, faults, jobs0[k].id))
  }

  /** A prefix of a well-formed log is well-formed; a job's end is the last of its messages of note. */
  lemma WellFormedPrefix(jobs0: seq<Job>, msgs: seq<Msg>, m: Msg)
    requires WellFormedLog(jobs0, msgs + [m])
    ensures WellFormedLog(jobs0, msgs)
    ensures forall k | 0 <= k < |jobs0| && IdOf(m) == jobs0[k].id && !m.MError? :: Dones(Mine(msgs, jobs0[k].id)) == 0
  {
    forall k | 0 <= k < |jobs0|
      ensures InOrder(Mine(msgs, jobs0[k].id), |jobs0[k].files|) && Dones(Mine(msgs, jobs0[k].id)) <= 1
      ensures IdOf(m) == jobs0[k].id && !m.MError? ==> Dones(Mine(msgs, jobs0[k].id)) == 0
    {
      hide Mine, InOrder, Dones;
      var log := Mine(msgs, jobs0[k].id);
      MineSnoc(msgs, m, jobs0[k].id);
      assert log + [] == log;
      if IdOf(m) == jobs0[k].id {
        InOrderPrefix(log, m, |jobs0[k].files|);
      }
    }
  }

  lemma InOrderPrefix(log: seq<Msg>, m: Msg, n: nat)
    requires InOrder(log + [m], n) && Dones(log + [m]) <= 1
    ensures InOrder(log, n) && Dones(log) <= 1
    ensures !m.MError? ==> Dones(log) == 0
  {
    hide Dones;
    var log' := log + [m];
    assert forall a | 0 <= a < |log| :: log'[a] == log[a];
    assert log'[|log|] == m;
    DonesSnoc(log, m);
    if m.MBlock? {
      forall a | 0 <= a < |log| ensures !log[a].MDone? {
        assert log'[a] == log[a];
      }
      NoneDone(log);
    }
  }

  /** Dispatching one more message keeps every job's invariant. */
  lemma DispatchStep(z: Zstd, jobs0: seq<Job>, disk0: Disk, s: RecvState, msgs: seq<Msg>, m: Msg, faults: WriteFaults)
    requires FreshReceivers(jobs0) && WellFormedLog(jobs0, msgs + [m])
    requires ReceiverInv(z, jobs0, disk0, s, msgs, faults)
    ensures ReceiverInv(z, jobs0, disk0, Dispatch(z, s, m, faults(|msgs|)), msgs + [m], faults)
  {
    hide Mine, Dones, EventsOf, JobInv;
    WellFormedPrefix(jobs0, msgs, m);
    var s' := Dispatch(z, s, m, faults(|msgs|));
    forall l | 0 <= l < |jobs0|
      ensures JobInv(z, jobs0[l], disk0, s'.jobs[l], s'.disk, EventsOf(msgs + [m], faults, jobs0[l].id))
    {
      DispatchStepJob(z, jobs0, disk0, s, msgs, m, faults, l);
    }
  }

  lemma DispatchStepJob(z: Zstd, jobs0: seq<Job>, disk0: Disk, s: RecvState, msgs: seq<Msg>, m: Msg,
                        faults: WriteFaults, l: nat)
    requires FreshReceivers(jobs0) && WellFormedLog(jobs0, msgs + [m]) && l < |jobs0|
    requires ReceiverInv(z, jobs0, disk0, s, msgs, faults)
    requires forall k | 0 <= k < |jobs0| && IdOf(m) == jobs0[k].id && !m.MError? ::
               Dones(Mine(msgs, jobs0[k].id)) == 0
    ensures var s' := Dispatch(z, s, m, faults(|msgs|));
            && |s'.jobs| == |jobs0|
            && JobInv(z, jobs0[l], disk0, s'.jobs[l], s'.disk, EventsOf(msgs + [m], faults, jobs0[l].id))
  {
    hide Mine, JobInv, WriteBlock, Publish, DistinctFinals, DisjointJobs, InOrder, Dones, JobIndex, SameOn, EventsOf,
         Messages;
    var fault := faults(|msgs|);
    var id := jobs0[l].id;
    var events := EventsOf(msgs, faults, id);
    MineSnoc(msgs, m, id);
    EventsOfSnoc(msgs, m, faults, id);
    EventsAreMine(msgs, faults, id);
    assert events + [] == events;
    assert JobInv(z, jobs0[l], disk0, s.jobs[l], s.disk, events);
    forall a | 0 <= a < |jobs0| ensures s.jobs[a].id == jobs0[a].id {
      assert JobInv(z, jobs0[a], disk0, s.jobs[a], s.disk, EventsOf(msgs, faults, jobs0[a].id));
      JobKeepsId(z, jobs0[a], disk0, s.jobs[a], s.disk, EventsOf(msgs, faults, jobs0[a].id));
    }
    var k := JobIndex(IdOf(m), s.jobs);
    if IdOf(m) == id {
      assert k == l;
      match m {
        case MBlock(b) => JobBlock(z, jobs0[l], disk0, s.jobs[l], s.disk, events, b, fault);
        case MDone(_, _) =>
          WellFormedPrefix(jobs0, msgs, m);
          JobDone(z, jobs0[l], disk0, s.jobs[l], s.disk, events, Event(m, fault));
        case MError(_, _, _) => JobError(z, jobs0[l], disk0, s.jobs[l], s.disk, events, Event(m, fault));
      }
    } else if k < |s.jobs| && !m.MError? {
      var others := EventsOf(msgs, faults, jobs0[k].id);
      assert JobInv(z, jobs0[k], disk0, s.jobs[k], s.disk, others);
      EventsAreMine(msgs, faults, jobs0[k].id);
      JobIsWriter(z, jobs0[k], disk0, s.jobs[k], s.disk, others);
      OthersUntouched(z, jobs0[k], disk0, s.jobs[k], s.disk, Messages(others), SpoiledBy(others), m, fault, jobs0[l]);
      SameOnKeepsJob(z, jobs0[l], disk0, s.jobs[l], s.disk, Dispatch(z, s, m, fault).disk, events);
    }
  }

  lemma JobKeepsId(z: Zstd, w0: Job, disk0: Disk, w: Job, disk: Disk, events: seq<Event>)
    requires JobInv(z, w0, disk0, w, disk, events)
    ensures w.id == w0.id
  {
  }

  lemma JobIsWriter(z: Zstd, w0: Job, disk0: Disk, w: Job, disk: Disk, events: seq<Event>)
    requires JobInv(z, w0, disk0, w, disk, events)
    ensures WriterInv(z, w0, disk0, w, disk, Messages(events), SpoiledBy(events))
  {
  }

  /** Main result, the staging invariant over whole runs: however the messages of the jobs interleave and
      whichever writes break, after every prefix of the messages
      - each file of a job none of whose destinations is a staging name has exactly the content its
        job's messages and their faults say it has, under its final and its staging name;
      - in any job, each file that no broken write has spoiled is as the first message left it, or staged
        with exactly the bytes received for it, or final with exactly those bytes, unless a later file
        was staged under its name; and only the current file of a job is staged. What the first
        message leaves is what was there, with the leftover of file 0 promoted. */
  lemma {:induction false} StagingInvariant(z: Zstd, jobs0: seq<Job>, disk0: Disk, msgs: seq<Msg>,
                                            faults: WriteFaults)
    requires FreshReceivers(jobs0) && WellFormedLog(jobs0, msgs)
    ensures ReceiverInv(z, jobs0, disk0, DispatchAll(z, RecvState(jobs0, disk0), msgs, faults), msgs, faults)
    decreases |msgs|
  {
    hide FreshReceivers, WellFormedLog, ReceiverInv, Dispatch;
    if msgs == [] {
      ReceiverStart(z, jobs0, disk0, faults);
    } else {
      var n := |msgs| - 1;
      assert msgs == msgs[..n] + [msgs[n]];
      WellFormedPrefix(jobs0, msgs[..n], msgs[n]);
      StagingInvariant(z, jobs0, disk0, msgs[..n], faults);
      DispatchStep(z, jobs0, disk0, DispatchAll(z, RecvState(jobs0, disk0), msgs[..n], faults), msgs[..n], msgs[n],
        faults);
    }
  }

  lemma ReceiverStart(z: Zstd, jobs0: seq<Job>, disk0: Disk, faults: WriteFaults)
    requires FreshReceivers(jobs0)
    ensures ReceiverInv(z, jobs0, disk0, RecvState(jobs0, disk0), [], faults)
  {
    hide JobInv;
    forall k | 0 <= k < |jobs0| ensures JobInv(z, jobs0[k], disk0, jobs0[k], disk0, []) {
      JobStart(z, jobs0[k], disk0);
    }
  }

  /** Main result on clashing names: of a job whose files were all sent and written without a fault, file `i` is
      complete at the end exactly if no later file is staged under its final name. */
  lemma CompleteIffNotOverwritten(z: Zstd, w0: Job, disk0: Disk, log: seq<Msg>, i: nat)
    requires w0 == NewJob(w0.id, w0.path, w0.files) && DistinctFinals(w0) && i < |w0.files|
    requires forall m <- log :: IdOf(m) == w0.id
    requires InOrder(log, |w0.files|) && Dones(log) == 1
    requires forall k | 0 <= k < |w0.files| :: HasBlock(log, k)
    ensures At(DispatchAll(z, RecvState([w0], disk0), log, NO_FAULTS).disk, FinalPath(w0, i))
            == Some(BytesFor(z, log, i))
        <==> forall k | i < k < |w0.files| :: Staged(FinalPath(w0, k)) != FinalPath(w0, i)
  {
    hide Join, InOrder, Dones, HasBlock, DispatchAll, BytesFor, WriterInv, ExactInv, DistinctFinals, InFootprint,
         EventsOf, SpoiledBy, NO_FAULTS;
    MineAll(log, w0.id);
    StagingInvariant(z, [w0], disk0, log, NO_FAULTS);
    EventsAreMine(log, NO_FAULTS, w0.id);
    NoFaultEvents(log, w0.id);
    NothingSpoiled(EventsOf(log, NO_FAULTS, w0.id));
    var s := DispatchAll(z, RecvState([w0], disk0), log, NO_FAULTS);
    EndPublishesAll(z, w0, disk0, s.jobs[0], s.disk, log, {}, i);
    AllBegunOverwritten(w0, log, i);
  }

  lemma AllBegunOverwritten(w0: Job, log: seq<Msg>, i: nat)
    requires i < |w0.files| && forall l | 0 <= l < |w0.files| :: HasBlock(log, l)
    ensures !Overwritten(w0, log, {}, i)
        <==> forall l | i < l < |w0.files| :: Staged(FinalPath(w0, l)) != FinalPath(w0, i)
  {
    hide Join, HasBlock;
    assert forall l | 0 <= l < |w0.files| ::
        Overwrites(w0, l, i) <==> i < l && Staged(FinalPath(w0, l)) == FinalPath(w0, i);
  }

  lemma {:induction false} MineAll(log: seq<Msg>, id: int)
    requires forall m <- log :: IdOf(m) == id
    ensures Mine(log, id) == log
    decreases |log|
  {
    if log != [] {
      assert log[|log| - 1] in log;
      MineAll(log[..|log| - 1], id);
    }
  }
}
