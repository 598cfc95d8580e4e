/** The receiving side of one job: what its messages and the faults of its writes make of the disk. */
module Staging {
  import opened Octets
  import opened Compression
  import opened Transfer
  import opened JobLog

  // ---------------------------------------------------------------------------------------
  // Disks

  function At(disk: Disk, p: Path): Option<Bytes> {
    if p in disk then Some(disk[p]) else None
  }

  /** The paths a job may write: the final and the staged names of its files. */
  ghost predicate InFootprint(j: Job, p: Path) {
    exists i | 0 <= i < |j.files| :: p == FinalPath(j, i) || p == Staged(FinalPath(j, i))
  }

  ghost predicate SameOn(j: Job, a: Disk, b: Disk) {
    forall i | 0 <= i < |j.files| ::
      && At(a, FinalPath(j, i)) == At(b, FinalPath(j, i))
      && At(a, Staged(FinalPath(j, i))) == At(b, Staged(FinalPath(j, i)))
  }

  ghost predicate DisjointJobs(a: Job, b: Job) {
    forall p :: !(InFootprint(a, p) && InFootprint(b, p))
  }

  /** Exactly the staged name and the final name of the current file change. */
  lemma PublishAt(j: Job, disk: Disk, p: Path)
    ensures At(Publish(j, disk).1, p)
         == if j.fileNum < |j.files| && Staged(FinalPath(j, j.fileNum)) in disk then
              if p == FinalPath(j, j.fileNum) then At(disk, Staged(p))
              else if p == Staged(FinalPath(j, j.fileNum)) then None
              else At(disk, p)
            else At(disk, p)
  {
    hide Join;
    if j.fileNum < |j.files| { StagedInjective(FinalPath(j, j.fileNum), p); }
  }

  // ---------------------------------------------------------------------------------------
  // Names

  ghost predicate AnyBlock(log: seq<Msg>) {
    exists m <- log :: m.MBlock?
  }

  /** The disk as the job's first action leaves it: `write` and `modify_time` begin by publishing
      file 0, so a staged file left over from before becomes final. */
  ghost function Prior(w0: Job, disk0: Disk, log: seq<Msg>): Disk {
    if AnyBlock(log) || Dones(log) > 0 then Publish(w0, disk0).1 else disk0
  }

  /** No file of the job is staged under the final name of file `i`. */
  ghost predicate NeverStaged(w0: Job, i: nat)
    requires i < |w0.files|
  {
    forall k | 0 <= k < |w0.files| :: Staged(FinalPath(w0, k)) != FinalPath(w0, i)
  }

  /** No file of the job ends up under the staging name of file `i`. */
  ghost predicate NeverFinal(w0: Job, i: nat)
    requires i < |w0.files|
  {
    forall k | 0 <= k < |w0.files| :: FinalPath(w0, k) != Staged(FinalPath(w0, i))
  }

  /** File `k` comes after file `i` and is staged under its final name. */
  ghost predicate Overwrites(w0: Job, k: nat, i: nat)
    requires i < |w0.files| && k < |w0.files|
  {
    i < k && Staged(FinalPath(w0, k)) == FinalPath(w0, i)
  }

  /** A later file with a block, not among `except`, is staged under the final name of file `i`. */
  ghost predicate Overwritten(w0: Job, log: seq<Msg>, except: set<int>, i: nat)
    requires i < |w0.files|
  {
    exists k | 0 <= k < |w0.files| :: HasBlock(log, k) && k !in except && Overwrites(w0, k, i)
  }

  // ---------------------------------------------------------------------------------------
  // The invariant. `spoiled` are the files a failed write has struck.

  /** The files a write spoils by breaking: its own; and if the next staging file cannot be created while
      a file is open, that one, because the blocks that follow go to its end. */
  function Spoils(w: Job, b: Block, r: WriteResult): set<int> {
    match r
    case Broke(fault) => {b.fileNum} + (if fault == NotCreated && w.file.Some? then {w.fileNum} else {})
    case _ => {}
  }

  ghost predicate InPlace(w: Job) {
    w.file.Some? && HandleInPlace(w)
  }

  /** File `i` is the one being received. */
  ghost predicate IsCurrent(w: Job, log: seq<Msg>, i: nat) {
    i == w.fileNum && InPlace(w) && Dones(log) == 0
  }

  /** Where a file that no write has spoiled stands, for any distinct final names: being received, with all
      bytes so far under its staging name; or published, complete under its final name unless a
      later file was staged there, in which case nothing is left; or not begun. Names no other file
      of the job uses hold what they held, and are clean afterwards. */
  ghost predicate FileState(z: Zstd, w0: Job, disk0: Disk, w: Job, disk: Disk, log: seq<Msg>, spoiled: set<int>,
                            i: nat)
    requires i < |w0.files|
  {
    var path := FinalPath(w0, i);
    var prior := Prior(w0, disk0, log);
    if !HasBlock(log, i) then
      && (NeverStaged(w0, i) ==> At(disk, path) == At(prior, path))
      && (NeverFinal(w0, i) ==> At(disk, Staged(path)) == At(prior, Staged(path)))
    else if IsCurrent(w, log, i) then
      && At(disk, Staged(path)) == Some(BytesFor(z, log, i))
      && (NeverStaged(w0, i) ==> At(disk, path) == At(prior, path))
    else
      && (!Overwritten(w0, log, {}, i) ==> At(disk, path) == Some(BytesFor(z, log, i)))
      && (forall k | 0 <= k < |w0.files| && HasBlock(log, k) && k !in spoiled && !IsCurrent(w, log, k)
                     && Overwrites(w0, k, i) :: At(disk, path) == None)
      && (NeverFinal(w0, i) ==> At(disk, Staged(path)) == None)
  }

  /** Blocks of a later file than `i` have come. */
  ghost predicate Passed(log: seq<Msg>, i: int) {
    exists m <- log :: m.MBlock? && m.block.fileNum > i
  }

  /** The open file is the current one, just published: the next file's write broke when flushing it. */
  ghost predicate Settled(w: Job, disk: Disk, log: seq<Msg>) {
    && w.file.Some? && w.fileNum < |w.files| && Passed(log, w.fileNum)
    && w.file.value.path == FinalPath(w, w.fileNum) && Staged(FinalPath(w, w.fileNum)) !in disk
  }

  /** The current file could not be created; if a file is open, it is a spoiled one. */
  ghost predicate Astray(w: Job, spoiled: set<int>) {
    && w.fileNum in spoiled
    && (w.file.Some? ==> exists p | 0 <= p < |w.files| :: p in spoiled && w.file.value.path == FinalPath(w, p))
  }

  ghost predicate Cursor(w0: Job, w: Job, disk: Disk, log: seq<Msg>, spoiled: set<int>) {
    && w.id == w0.id && w.path == w0.path && w.files == w0.files
    && if AnyBlock(log) then
         && w.fileNum < |w.files| && HasBlock(log, w.fileNum)
         && (forall k | HasBlock(log, k) && k > w.fileNum :: k in spoiled)
         && (Dones(log) == 0 ==>
               || (InPlace(w) && w.file.value.path in disk)
               || Settled(w, disk, log)
               || Astray(w, spoiled))
       else
         w.fileNum == w0.fileNum && w.file.None? && spoiled == {}
  }

  /** The counters: at most what was sent, and exactly that if no write broke. */
  ghost predicate CountsReceived(z: Zstd, w: Job, log: seq<Msg>, spoiled: set<int>) {
    && w.finishedSize <= PayloadTotal(z, log) && w.transfered <= DataTotal(log)
    && (spoiled == {} ==> w.finishedSize == PayloadTotal(z, log) && w.transfered == DataTotal(log))
  }

  /** The staging invariant of a receiving job. */
  ghost predicate WriterInv(z: Zstd, w0: Job, disk0: Disk, w: Job, disk: Disk, log: seq<Msg>, spoiled: set<int>) {
    && Cursor(w0, w, disk, log, spoiled)
    && (forall i | 0 <= i < |w0.files| && i !in spoiled :: FileState(z, w0, disk0, w, disk, log, spoiled, i))
    && (!AnyBlock(log) && Dones(log) == 0 ==> SameOn(w0, disk0, disk))
    && CountsReceived(z, w, log, spoiled)
  }

  lemma WriterStart(z: Zstd, w0: Job, disk0: Disk)
    requires w0 == NewJob(w0.id, w0.path, w0.files)
    ensures WriterInv(z, w0, disk0, w0, disk0, [], {})
  {
  }

  lemma AnyBlockSnoc(log: seq<Msg>, m: Msg)
    ensures AnyBlock(log + [m]) <==> AnyBlock(log) || m.MBlock?
    ensures forall x :: x in log + [m] <==> x in log || x == m
  {
    assert m in log + [m] && forall x <- log :: x in log + [m];
  }

  lemma BlocksSnoc(log: seq<Msg>, m: Msg)
    ensures forall k :: HasBlock(log + [m], k) <==> HasBlock(log, k) || IsBlockOf(m, k)
  {
    AnyBlockSnoc(log, m);
  }

  lemma LastIsHighest(log: seq<Msg>, m: Msg, n: nat)
    requires InOrder(log + [m], n) && m.MBlock?
    ensures 0 <= m.block.fileNum < n
    ensures forall x <- log | x.MBlock? :: x.block.fileNum <= m.block.fileNum
  {
    var log' := log + [m];
    assert log'[|log|] == m;
    forall x <- log | x.MBlock? ensures x.block.fileNum <= m.block.fileNum {
      var k :| 0 <= k < |log| && log[k] == x;
      assert log'[k] == x;
    }
  }

  // ---------------------------------------------------------------------------------------
  // Publishing

  /** Where file `i` stands after publishing. */
  ghost predicate PublishedState(z: Zstd, w0: Job, disk0: Disk, disk: Disk, log: seq<Msg>, spoiled: set<int>, i: nat)
    requires i < |w0.files|
  {
    var path := FinalPath(w0, i);
    var prior := Publish(w0, disk0).1;
    if HasBlock(log, i) then
      && (!Overwritten(w0, log, {}, i) ==> At(disk, path) == Some(BytesFor(z, log, i)))
      && (Overwritten(w0, log, spoiled, i) ==> At(disk, path) == None)
      && (NeverFinal(w0, i) ==> At(disk, Staged(path)) == None)
    else
      && (NeverStaged(w0, i) ==> At(disk, path) == At(prior, path))
      && (NeverFinal(w0, i) ==> At(disk, Staged(path)) == At(prior, Staged(path)))
  }

  /** Publishing completes the current file, and takes away the file whose name it was staged under. */
  lemma PublishCompletes(z: Zstd, w0: Job, disk0: Disk, w: Job, disk: Disk, log: seq<Msg>, spoiled: set<int>, i: nat)
    requires DistinctFinals(w0) && WriterInv(z, w0, disk0, w, disk, log, spoiled) && Dones(log) == 0
    requires i < |w0.files| && i !in spoiled
    ensures PublishedState(z, w0, disk0, Publish(w, disk).1, log, spoiled, i)
  {
    hide Join, BytesFor, Publish, CountsReceived, Dones;
    var path := FinalPath(w0, i);
    assert FileState(z, w0, disk0, w, disk, log, spoiled, i);
    if AnyBlock(log) {
      PublishCurrent(z, w0, disk0, w, disk, log, spoiled, i);
    } else {
      PublishAt(w, disk, path);
      PublishAt(w, disk, Staged(path));
      PublishAt(w0, disk0, path);
      PublishAt(w0, disk0, Staged(path));
      assert !HasBlock(log, i);
      if w.fileNum < |w0.files| {
        assert FinalPath(w, w.fileNum) == FinalPath(w0, w.fileNum);
      }
    }
  }

  lemma PublishCurrent(z: Zstd, w0: Job, disk0: Disk, w: Job, disk: Disk, log: seq<Msg>, spoiled: set<int>, i: nat)
    requires DistinctFinals(w0) && Cursor(w0, w, disk, log, spoiled) && Dones(log) == 0
    requires i < |w0.files| && i !in spoiled && AnyBlock(log)
    requires FileState(z, w0, disk0, w, disk, log, spoiled, i)
    ensures PublishedState(z, w0, disk0, Publish(w, disk).1, log, spoiled, i)
  {
    hide Join, BytesFor, Publish, Dones, HasBlock, Passed;
    var c := w.fileNum;
    var path, current := FinalPath(w0, i), FinalPath(w0, c);
    assert FinalPath(w, c) == current;
    PublishAt(w, disk, path);
    PublishAt(w, disk, Staged(path));
    StagedInjective(path, current);
    StagedInjective(current, path);
    SameStaging(w0, c);
    if Staged(current) == path && i < c {
      assert Overwrites(w0, c, i);
    }
  }

  /** Staging names tell the files of a job apart. */
  lemma SameStaging(w0: Job, c: nat)
    requires DistinctFinals(w0) && c < |w0.files|
    ensures forall k | 0 <= k < |w0.files| && k != c :: Staged(FinalPath(w0, k)) != Staged(FinalPath(w0, c))
  {
    hide Join, Staged;
    forall k | 0 <= k < |w0.files| && k != c ensures Staged(FinalPath(w0, k)) != Staged(FinalPath(w0, c)) {
      StagedInjective(FinalPath(w0, k), FinalPath(w0, c));
    }
  }

  lemma PublishKeepsJob(w: Job, disk: Disk)
    ensures var w' := Publish(w, disk).0;
            && w' == w.(file := w'.file) && (w'.file.Some? <==> w.file.Some?)
            && (w.fileNum >= |w.files| ==> w' == w)
            && (w.file.Some? && w.fileNum < |w.files| ==>
                  var path := FinalPath(w, w.fileNum);
                  w'.file.value.path == if Staged(path) in disk && w.file.value.path == Staged(path) then path
                                        else w.file.value.path)
  {
    hide Join;
  }

  // ---------------------------------------------------------------------------------------
  // The end of the job, and errors

  lemma WriterDone(z: Zstd, w0: Job, disk0: Disk, w: Job, disk: Disk, log: seq<Msg>, spoiled: set<int>, m: Msg)
    requires DistinctFinals(w0) && WriterInv(z, w0, disk0, w, disk, log, spoiled) && Dones(log) == 0 && m.MDone?
    ensures var (w', disk') := Publish(w, disk);
            WriterInv(z, w0, disk0, w', disk', log + [m], spoiled)
  {
    hide Join, BytesFor, FileState, PublishedState, PayloadTotal, DataTotal, SameOn, Publish;
    var (w', disk') := Publish(w, disk);
    PublishKeepsJob(w, disk);
    AnyBlockSnoc(log, m);
    BlocksSnoc(log, m);
    LogSnoc(z, log, m, w.fileNum);
    forall i | 0 <= i < |w0.files| && i !in spoiled
      ensures FileState(z, w0, disk0, w', disk', log + [m], spoiled, i)
    {
      PublishCompletes(z, w0, disk0, w, disk, log, spoiled, i);
      PublishedForGood(z, w0, disk0, w', disk', log, spoiled, m, i);
    }
  }

  lemma PublishedForGood(z: Zstd, w0: Job, disk0: Disk, w: Job, disk: Disk, log: seq<Msg>, spoiled: set<int>,
                         m: Msg, i: nat)
    requires i < |w0.files| && PublishedState(z, w0, disk0, disk, log, spoiled, i) && m.MDone?
    ensures FileState(z, w0, disk0, w, disk, log + [m], spoiled, i)
  {
    hide Join, Publish, BytesFor, Dones, HasBlock, Overwrites;
    LogSnoc(z, log, m, i);
    BlocksSnoc(log, m);
    assert BytesFor(z, log, i) + [] == BytesFor(z, log, i);
  }

  lemma WriterError(z: Zstd, w0: Job, disk0: Disk, w: Job, disk: Disk, log: seq<Msg>, spoiled: set<int>, m: Msg)
    requires WriterInv(z, w0, disk0, w, disk, log, spoiled) && m.MError?
    ensures WriterInv(z, w0, disk0, w, disk, log + [m], spoiled)
  {
    hide Join, BytesFor, PayloadTotal, DataTotal, Dones, Publish, SameOn, FileState;
    AnyBlockSnoc(log, m);
    BlocksSnoc(log, m);
    LogSnoc(z, log, m, w.fileNum);
    forall i | 0 <= i < |w0.files| && i !in spoiled
      ensures FileState(z, w0, disk0, w, disk, log + [m], spoiled, i)
    {
      ErrorChangesNothing(z, w0, disk0, w, disk, log, spoiled, m, i);
    }
  }

  lemma ErrorChangesNothing(z: Zstd, w0: Job, disk0: Disk, w: Job, disk: Disk, log: seq<Msg>, spoiled: set<int>,
                            m: Msg, i: nat)
    requires i < |w0.files| && FileState(z, w0, disk0, w, disk, log, spoiled, i) && m.MError?
    ensures FileState(z, w0, disk0, w, disk, log + [m], spoiled, i)
  {
    hide Join, Publish, BytesFor, Dones, HasBlock, Overwrites, AnyBlock;
    AnyBlockSnoc(log, m);
    LogSnoc(z, log, m, i);
    BlocksSnoc(log, m);
    assert BytesFor(z, log, i) + [] == BytesFor(z, log, i);
  }

  // ---------------------------------------------------------------------------------------
  // Blocks

  /** The bytes a write adds, whether it breaks or not. */
  function Added(z: Zstd, b: Block, r: WriteResult): Bytes {
    match r
    case Written => Payload(z, b)
    case Broke(ShortWrite(n)) => Payload(z, b)[..Min(n, |Payload(z, b)|)]
    case _ => []
  }

  predicate Adds(r: WriteResult) {
    r == Written || (r.Broke? && r.fault.ShortWrite?)
  }

  /** The file a write adds to. */
  function Target(w: Job, b: Block): Path
    requires Accepts(w, b)
  {
    if Switches(w, b) then Staged(FinalPath(w, b.fileNum)) else w.file.value.path
  }

  /** What one block does to the job: it stands at the block's file, unless flushing the previous one broke it;
      after a failed creation whatever was open stays open. */
  lemma WriteBlockJob(z: Zstd, w: Job, disk: Disk, b: Block, fault: Option<WriteFault>)
    requires Accepts(w, b)
    ensures var (w', disk', r) := WriteBlock(z, w, disk, b, fault);
            && w'.id == w.id && w'.path == w.path && w'.files == w.files
            && (Adds(r) ==> w'.fileNum == b.fileNum && w'.file.Some? && w'.file.value.path == Target(w, b))
            && (r == Broke(SyncFailed) ==> Switches(w, b) && w.file.Some? && w' == Publish(w, disk).0)
            && (r == Broke(NotCreated) ==> Switches(w, b) && w' == Publish(w, disk).0.(fileNum := b.fileNum))
            && (Adds(r) || r == Broke(SyncFailed) || r == Broke(NotCreated))
            && (r == Written ==> w'.finishedSize == w.finishedSize + |Payload(z, b)|
                                 && w'.transfered == w.transfered + |b.data|)
            && (r != Written ==> w'.finishedSize == w.finishedSize && w'.transfered == w.transfered)
            && (fault.None? ==> r == Written)
  {
    hide Join, Payload, Rename;
  }

  /** What one block does to the disk: on a switch the previous file is published and a fresh staging file
      begun; then its bytes are added at the end of the open file. */
  lemma WriteBlockAt(z: Zstd, w: Job, disk: Disk, b: Block, fault: Option<WriteFault>, p: Path)
    requires Accepts(w, b)
    ensures var (w', disk', r) := WriteBlock(z, w, disk, b, fault);
            At(disk', p) == (if Adds(r) && p == Target(w, b) then
                               if Switches(w, b) then Some(Added(z, b, r))
                               else if p in disk then Some(disk[p] + Added(z, b, r))
                               else None
                             else if Switches(w, b) then At(Publish(w, disk).1, p)
                             else At(disk, p))
  {
    hide Join, Payload, Publish;
    var (w', disk', r) := WriteBlock(z, w, disk, b, fault);
    if Adds(r) && Switches(w, b) {
      assert [] + Added(z, b, r) == Added(z, b, r);
    }
  }

  /** The first block a fresh job gets is found behind the file's name and `.download`, and makes nothing final but a
      leftover of file 0. */
  lemma FirstBlockIsStaged(z: Zstd, w0: Job, disk0: Disk, b: Block)
    requires w0 == NewJob(w0.id, w0.path, w0.files) && Accepts(w0, b)
    requires FinalPath(w0, 0) + ".download" !in disk0
    ensures var (w', disk', r) := WriteBlock(z, w0, disk0, b, None);
            var staged := FinalPath(w0, b.fileNum) + ".download";
            r == Written && disk' == disk0[staged := Payload(z, b)]
  {
    hide Join, Payload;
    assert [] + Payload(z, b) == Payload(z, b);
  }

  lemma WriterBlock(z: Zstd, w0: Job, disk0: Disk, w: Job, disk: Disk, log: seq<Msg>, spoiled: set<int>,
                    b: Block, fault: Option<WriteFault>)
    requires DistinctFinals(w0) && WriterInv(z, w0, disk0, w, disk, log, spoiled) && w0.fileNum == 0
    requires b.id == w0.id && Dones(log) == 0 && InOrder(log + [MBlock(b)], |w0.files|)
    ensures var (w', disk', r) := WriteBlock(z, w, disk, b, fault);
            WriterInv(z, w0, disk0, w', disk', log + [MBlock(b)], spoiled + Spoils(w, b, r))
  {
    hide Join, BytesFor, PayloadTotal, DataTotal, Dones, Publish, WriteBlock, InOrder, FileState, Payload, SameOn;
    hide DistinctFinals, Cursor, Spoils, Added;
    var m := MBlock(b);
    var (w', disk', r) := WriteBlock(z, w, disk, b, fault);
    var spoiled' := spoiled + Spoils(w, b, r);
    LastIsHighest(log, m, |w0.files|);
    AnyBlockSnoc(log, m);
    LogSnoc(z, log, m, b.fileNum);
    SameJob(w0, w, disk, log, spoiled);
    WriteBlockJob(z, w, disk, b, fault);
    WriterCursor(z, w0, w, disk, log, spoiled, b, fault);
    assert r != Written ==> b.fileNum in spoiled' by { BrokenIsSpoiled(w, b, r); }
    forall i | 0 <= i < |w0.files| && i !in spoiled'
      ensures FileState(z, w0, disk0, w', disk', log + [m], spoiled', i)
    {
      WriterBlockFile(z, w0, disk0, w, disk, log, spoiled, b, fault, i);
    }
  }

  lemma BrokenIsSpoiled(w: Job, b: Block, r: WriteResult)
    ensures r.Broke? ==> b.fileNum in Spoils(w, b, r)
    ensures r == Broke(NotCreated) && w.file.Some? ==> w.fileNum in Spoils(w, b, r)
  {
  }

  lemma SameJob(w0: Job, w: Job, disk: Disk, log: seq<Msg>, spoiled: set<int>)
    requires Cursor(w0, w, disk, log, spoiled)
    ensures w.id == w0.id && w.path == w0.path && w.files == w0.files
  {
  }

  /** Where the job stands after a block. */
  lemma WriterCursor(z: Zstd, w0: Job, w: Job, disk: Disk, log: seq<Msg>, spoiled: set<int>,
                     b: Block, fault: Option<WriteFault>)
    requires Cursor(w0, w, disk, log, spoiled) && Accepts(w, b) && Dones(log) == 0
    requires forall x <- log | x.MBlock? :: x.block.fileNum <= b.fileNum
    ensures var (w', disk', r) := WriteBlock(z, w, disk, b, fault);
            Cursor(w0, w', disk', log + [MBlock(b)], spoiled + Spoils(w, b, r))
  {
    hide Join, Dones, Publish, WriteBlock, Payload, Settled, Astray, HandleInPlace, Added, Spoils;
    var m := MBlock(b);
    var (w', disk', r) := WriteBlock(z, w, disk, b, fault);
    AnyBlockSnoc(log, m);
    BlocksSnoc(log, m);
    DonesSnoc(log, m);
    WriteBlockJob(z, w, disk, b, fault);
    PublishKeepsJob(w, disk);
    BrokenIsSpoiled(w, b, r);
    WriterStanding(z, w0, w, disk, log, spoiled, b, fault);
  }

  lemma DonesSnoc(log: seq<Msg>, m: Msg)
    ensures Dones(log + [m]) == Dones(log) + (if m.MDone? then 1 else 0)
  {
    assert (log + [m])[..|log|] == log;
  }

  /** The open file after a block: the block's staging file; or, if the block broke the job on its way there, the
      file before, published. */
  lemma WriterStanding(z: Zstd, w0: Job, w: Job, disk: Disk, log: seq<Msg>, spoiled: set<int>,
                       b: Block, fault: Option<WriteFault>)
    requires Cursor(w0, w, disk, log, spoiled) && Accepts(w, b) && Dones(log) == 0
    requires forall x <- log | x.MBlock? :: x.block.fileNum <= b.fileNum
    ensures var (w', disk', r) := WriteBlock(z, w, disk, b, fault);
            var spoiled' := spoiled + Spoils(w, b, r);
            || (InPlace(w') && w'.file.value.path in disk')
            || Settled(w', disk', log + [MBlock(b)])
            || Astray(w', spoiled')
  {
    hide Join, Dones, Publish, WriteBlock, Payload, Added;
    var m := MBlock(b);
    var (w', disk', r) := WriteBlock(z, w, disk, b, fault);
    WriteBlockJob(z, w, disk, b, fault);
    PublishKeepsJob(w, disk);
    AnyBlockSnoc(log, m);
    if Adds(r) {
      WriteBlockAt(z, w, disk, b, fault, Target(w, b));
    } else if r == Broke(SyncFailed) {
      var staged := Staged(FinalPath(w, w.fileNum));
      WriteBlockAt(z, w, disk, b, fault, staged);
      PublishAt(w, disk, staged);
      StagedInjective(FinalPath(w, w.fileNum), FinalPath(w, w.fileNum));
    }
  }

  /** A block that makes the job switch to a file not spoiled is the first one for it. */
  lemma FirstBlockOfFile(w0: Job, w: Job, disk: Disk, log: seq<Msg>, spoiled: set<int>, b: Block)
    requires Cursor(w0, w, disk, log, spoiled) && Switches(w, b) && Dones(log) == 0 && b.fileNum !in spoiled
    requires forall x <- log | x.MBlock? :: x.block.fileNum <= b.fileNum
    ensures !HasBlock(log, b.fileNum)
  {
    if AnyBlock(log) {
      var y :| y in log && IsBlockOf(y, w.fileNum);
      assert w.fileNum <= b.fileNum;
    }
  }

  lemma WriterBlockFile(z: Zstd, w0: Job, disk0: Disk, w: Job, disk: Disk, log: seq<Msg>, spoiled: set<int>,
                        b: Block, fault: Option<WriteFault>, i: nat)
    requires DistinctFinals(w0) && WriterInv(z, w0, disk0, w, disk, log, spoiled) && w0.fileNum == 0
    requires b.id == w0.id && Dones(log) == 0 && 0 <= b.fileNum < |w0.files| && i < |w0.files|
    requires forall x <- log | x.MBlock? :: x.block.fileNum <= b.fileNum
    requires i !in spoiled + Spoils(w, b, WriteBlock(z, w, disk, b, fault).2)
    ensures var (w', disk', r) := WriteBlock(z, w, disk, b, fault);
            FileState(z, w0, disk0, w', disk', log + [MBlock(b)], spoiled + Spoils(w, b, r), i)
  {
    hide Join, BytesFor, CountsReceived, Publish, WriteBlock, Payload, FileState, PublishedState, SameOn;
    hide DistinctFinals, Spoils, Added, Settled, Astray, InPlace;
    WriteBlockJob(z, w, disk, b, fault);
    var r := WriteBlock(z, w, disk, b, fault).2;
    BrokenIsSpoiled(w, b, r);
    if Switches(w, b) {
      PublishCompletes(z, w0, disk0, w, disk, log, spoiled, i);
      if Adds(r) {
        if b.fileNum == i { FirstBlockOfFile(w0, w, disk, log, spoiled, b); }
        FirstBlock(z, w0, disk0, w, disk, log, spoiled, b, fault, i);
      } else {
        BrokenSwitch(z, w0, disk0, w, disk, log, spoiled, b, fault, i);
      }
    } else {
      assert FileState(z, w0, disk0, w, disk, log, spoiled, i);
      MoreOfFile(z, w0, disk0, w, disk, log, spoiled, b, fault, i);
    }
  }

  /** A new staging file is begun. */
  lemma FirstBlock(z: Zstd, w0: Job, disk0: Disk, w: Job, disk: Disk, log: seq<Msg>, spoiled: set<int>,
                   b: Block, fault: Option<WriteFault>, i: nat)
    requires DistinctFinals(w0) && b.id == w0.id && Dones(log) == 0
    requires w.files == w0.files && w.path == w0.path && w.id == w0.id
    requires 0 <= b.fileNum < |w0.files| && i < |w0.files|
    requires forall x <- log | x.MBlock? :: x.block.fileNum <= b.fileNum
    requires Switches(w, b) && Adds(WriteBlock(z, w, disk, b, fault).2)
    requires i == b.fileNum ==> !HasBlock(log, i) && WriteBlock(z, w, disk, b, fault).2 == Written
    requires PublishedState(z, w0, disk0, Publish(w, disk).1, log, spoiled, i)
    ensures var (w', disk', r) := WriteBlock(z, w, disk, b, fault);
            FileState(z, w0, disk0, w', disk', log + [MBlock(b)], spoiled + Spoils(w, b, r), i)
  {
    hide Join, BytesFor, Dones, Publish, WriteBlock, Payload, Spoils;
    var m := MBlock(b);
    var path, current := FinalPath(w0, i), FinalPath(w0, b.fileNum);
    AnyBlockSnoc(log, m);
    BlocksSnoc(log, m);
    LogSnoc(z, log, m, i);
    assert BytesFor(z, log, i) + [] == BytesFor(z, log, i);
    assert FinalPath(w, b.fileNum) == current;
    if i == b.fileNum {
      NoBlockNothingReceived(z, log, b.fileNum);
      assert [] + Payload(z, b) == Payload(z, b);
    }
    WriteBlockJob(z, w, disk, b, fault);
    WriteBlockAt(z, w, disk, b, fault, path);
    WriteBlockAt(z, w, disk, b, fault, Staged(path));
    StagedInjective(path, current);
    SameStaging(w0, b.fileNum);
    var (w', disk', r) := WriteBlock(z, w, disk, b, fault);
    assert FinalPath(w', b.fileNum) == current && IsCurrent(w', log + [m], b.fileNum);
    if HasBlock(log, i) && path == Staged(current) && i != b.fileNum {
      assert i < b.fileNum && Overwrites(w0, b.fileNum, i);
    }
  }

  /** The switch breaks before the staging file is begun. */
  lemma BrokenSwitch(z: Zstd, w0: Job, disk0: Disk, w: Job, disk: Disk, log: seq<Msg>, spoiled: set<int>,
                     b: Block, fault: Option<WriteFault>, i: nat)
    requires Cursor(w0, w, disk, log, spoiled) && b.id == w0.id && Dones(log) == 0
    requires 0 <= b.fileNum < |w0.files| && i < |w0.files| && i != b.fileNum && i !in spoiled
    requires Switches(w, b) && !Adds(WriteBlock(z, w, disk, b, fault).2)
    requires PublishedState(z, w0, disk0, Publish(w, disk).1, log, spoiled, i)
    ensures var (w', disk', r) := WriteBlock(z, w, disk, b, fault);
            FileState(z, w0, disk0, w', disk', log + [MBlock(b)], spoiled + Spoils(w, b, r), i)
  {
    hide Join, BytesFor, Dones, Publish, WriteBlock, Payload, Spoils;
    var m := MBlock(b);
    var path := FinalPath(w0, i);
    var (w', disk', r) := WriteBlock(z, w, disk, b, fault);
    AnyBlockSnoc(log, m);
    BlocksSnoc(log, m);
    LogSnoc(z, log, m, i);
    assert BytesFor(z, log, i) + [] == BytesFor(z, log, i);
    WriteBlockJob(z, w, disk, b, fault);
    WriteBlockAt(z, w, disk, b, fault, path);
    WriteBlockAt(z, w, disk, b, fault, Staged(path));
    BrokenIsSpoiled(w, b, r);
    if w.file.Some? { NotInPlaceAfter(w0, w, disk, log, spoiled, i); }
    PublishKeepsJob(w, disk);
  }

  /** Once published, an unspoiled file is not the one being received. */
  lemma NotInPlaceAfter(w0: Job, w: Job, disk: Disk, log: seq<Msg>, spoiled: set<int>, i: nat)
    requires Cursor(w0, w, disk, log, spoiled) && Dones(log) == 0 && i !in spoiled && w.file.Some?
    ensures i == w.fileNum ==> !InPlace(Publish(w, disk).0)
  {
    hide Join, Publish, Dones, Passed;
    PublishKeepsJob(w, disk);
    if w.fileNum < |w.files| {
      StagedInjective(FinalPath(w, w.fileNum), FinalPath(w, w.fileNum));
    }
  }

  /** More bytes for the open file. */
  lemma MoreOfFile(z: Zstd, w0: Job, disk0: Disk, w: Job, disk: Disk, log: seq<Msg>, spoiled: set<int>,
                   b: Block, fault: Option<WriteFault>, i: nat)
    requires DistinctFinals(w0) && Cursor(w0, w, disk, log, spoiled)
    requires b.id == w0.id && Dones(log) == 0 && 0 <= b.fileNum < |w0.files| && i < |w0.files|
    requires forall x <- log | x.MBlock? :: x.block.fileNum <= b.fileNum
    requires !Switches(w, b) && FileState(z, w0, disk0, w, disk, log, spoiled, i) && i !in spoiled
    requires i == b.fileNum ==> WriteBlock(z, w, disk, b, fault).2 == Written
    ensures var (w', disk', r) := WriteBlock(z, w, disk, b, fault);
            FileState(z, w0, disk0, w', disk', log + [MBlock(b)], spoiled + Spoils(w, b, r), i)
  {
    hide Join, BytesFor, Dones, Publish, WriteBlock, Payload, Spoils;
    var m := MBlock(b);
    var path, current := FinalPath(w0, i), FinalPath(w0, b.fileNum);
    AnyBlockSnoc(log, m);
    BlocksSnoc(log, m);
    LogSnoc(z, log, m, i);
    assert BytesFor(z, log, i) + [] == BytesFor(z, log, i);
    assert FinalPath(w, b.fileNum) == current;
    WriteBlockJob(z, w, disk, b, fault);
    WriteBlockAt(z, w, disk, b, fault, path);
    WriteBlockAt(z, w, disk, b, fault, Staged(path));
    StagedInjective(path, current);
    SameStaging(w0, b.fileNum);
    if !InPlace(w) {
      assert Astray(w, spoiled);
      assert forall p | 0 <= p < |w.files| :: FinalPath(w, p) == FinalPath(w0, p);
    }
  }

  // ---------------------------------------------------------------------------------------
  // Other jobs' disks

  /** Only the job's own paths matter to it. */
  lemma SameOnKeepsWriter(z: Zstd, w0: Job, disk0: Disk, w: Job, a: Disk, b: Disk, log: seq<Msg>, spoiled: set<int>)
    requires WriterInv(z, w0, disk0, w, a, log, spoiled) && SameOn(w0, a, b)
    ensures WriterInv(z, w0, disk0, w, b, log, spoiled)
  {
    hide Join, BytesFor, PayloadTotal, DataTotal, Dones, Publish, HasBlock, Overwrites, Passed;
    forall i | 0 <= i < |w0.files| && i !in spoiled ensures FileState(z, w0, disk0, w, b, log, spoiled, i) {
      assert FileState(z, w0, disk0, w, a, log, spoiled, i);
    }
    if w.fileNum < |w0.files| {
      assert FinalPath(w, w.fileNum) == FinalPath(w0, w.fileNum);
    }
  }

  /** Neither writing, breaking or not, nor publishing touches a path outside the job's own. */
  lemma OutsideUntouched(z: Zstd, w0: Job, disk0: Disk, w: Job, disk: Disk, log: seq<Msg>, spoiled: set<int>,
                         m: Msg, fault: Option<WriteFault>, p: Path)
    requires WriterInv(z, w0, disk0, w, disk, log, spoiled) && IdOf(m) == w0.id && Dones(log) == 0
    requires !InFootprint(w0, p)
    ensures m.MDone? ==> At(Publish(w, disk).1, p) == At(disk, p)
    ensures m.MBlock? ==> At(WriteBlock(z, w, disk, m.block, fault).1, p) == At(disk, p)
  {
    hide Join, BytesFor, CountsReceived, Dones, Publish, WriteBlock, Payload, FileState, InFootprint, SameOn, Added,
         Passed;
    if w.fileNum < |w0.files| {
      FootprintMember(w0, w.fileNum);
      assert FinalPath(w, w.fileNum) == FinalPath(w0, w.fileNum);
    }
    PublishAt(w, disk, p);
    if m.MBlock? {
      if Accepts(w, m.block) {
        FootprintMember(w0, m.block.fileNum);
        assert FinalPath(w, m.block.fileNum) == FinalPath(w0, m.block.fileNum);
        WriteBlockAt(z, w, disk, m.block, fault, p);
        if !Switches(w, m.block) && Astray(w, spoiled) {
          var q :| 0 <= q < |w.files| && w.file.value.path == FinalPath(w, q);
          FootprintMember(w0, q);
          assert FinalPath(w, q) == FinalPath(w0, q);
        }
      } else {
        RefusedBlock(z, w, disk, m.block, fault);
      }
    }
  }

  lemma OthersUntouched(z: Zstd, w0: Job, disk0: Disk, w: Job, disk: Disk, log: seq<Msg>, spoiled: set<int>,
                        m: Msg, fault: Option<WriteFault>, other: Job)
    requires WriterInv(z, w0, disk0, w, disk, log, spoiled) && IdOf(m) == w0.id && Dones(log) == 0
    requires DisjointJobs(w0, other)
    ensures m.MDone? ==> SameOn(other, disk, Publish(w, disk).1)
    ensures m.MBlock? ==> SameOn(other, disk, WriteBlock(z, w, disk, m.block, fault).1)
  {
    hide Join, Publish, WriteBlock, InFootprint, WriterInv;
    forall i | 0 <= i < |other.files|
      ensures forall p | p == FinalPath(other, i) || p == Staged(FinalPath(other, i)) ::
        && (m.MDone? ==> At(Publish(w, disk).1, p) == At(disk, p))
        && (m.MBlock? ==> At(WriteBlock(z, w, disk, m.block, fault).1, p) == At(disk, p))
    {
      FootprintMember(other, i);
      OutsideUntouched(z, w0, disk0, w, disk, log, spoiled, m, fault, FinalPath(other, i));
      OutsideUntouched(z, w0, disk0, w, disk, log, spoiled, m, fault, Staged(FinalPath(other, i)));
    }
  }

  lemma RefusedBlock(z: Zstd, w: Job, disk: Disk, b: Block, fault: Option<WriteFault>)
    requires !Accepts(w, b)
    ensures WriteBlock(z, w, disk, b, fault).0 == w && WriteBlock(z, w, disk, b, fault).1 == disk
    ensures !WriteBlock(z, w, disk, b, fault).2.Broke?
  {
  }

  lemma FootprintMember(j: Job, i: nat)
    requires i < |j.files|
    ensures InFootprint(j, FinalPath(j, i)) && InFootprint(j, Staged(FinalPath(j, i)))
  {
  }

  // ---------------------------------------------------------------------------------------
  // What the invariant says

  /** A job whose end has arrived has published every file it got a block for and no write has spoiled. Only a
      later file staged under its final name can have taken it away, and has if it was not spoiled. */
  lemma EndPublishesAll(z: Zstd, w0: Job, disk0: Disk, w: Job, disk: Disk, log: seq<Msg>, spoiled: set<int>, i: nat)
    requires WriterInv(z, w0, disk0, w, disk, log, spoiled) && Dones(log) > 0
    requires i < |w0.files| && i !in spoiled
    ensures PublishedState(z, w0, disk0, disk, log, spoiled, i)
  {
    hide Join, Publish, BytesFor, Dones;
    assert FileState(z, w0, disk0, w, disk, log, spoiled, i);
  }

  /** A write that breaks after some of its bytes spoils the file for good: what has been written of it is
      published all the same. */
  lemma ShortWriteIsPublished(z: Zstd, w: Job, disk: Disk, b: Block, n: nat)
    requires Accepts(w, b) && !Switches(w, b) && InPlace(w) && w.file.value.path in disk
    requires n < |Payload(z, b)|
    ensures var (w', disk', r) := WriteBlock(z, w, disk, b, Some(ShortWrite(n)));
            && r == Broke(ShortWrite(n))
            && At(Publish(w', disk').1, FinalPath(w, w.fileNum))
               == Some(disk[w.file.value.path] + Payload(z, b)[..n])
  {
    hide Join, Payload, Publish;
    var fault := Some(ShortWrite(n));
    var path := FinalPath(w, w.fileNum);
    WriteBlockJob(z, w, disk, b, fault);
    WriteBlockAt(z, w, disk, b, fault, Staged(path));
    var (w', disk', r) := WriteBlock(z, w, disk, b, fault);
    assert FinalPath(w', w.fileNum) == path;
    PublishAt(w', disk', path);
  }

  /** With no staging files left over from before, only the current file of a job ever has one, and it
      holds exactly the bytes received for that file so far. */
  lemma OnlyCurrentStaged(z: Zstd, w0: Job, disk0: Disk, w: Job, disk: Disk, log: seq<Msg>, spoiled: set<int>, i: nat)
    requires WriterInv(z, w0, disk0, w, disk, log, spoiled) && i < |w0.files| && i !in spoiled && NeverFinal(w0, i)
    requires forall k | 0 <= k < |w0.files| :: Staged(FinalPath(w0, k)) !in disk0
    requires Staged(FinalPath(w0, i)) in disk
    ensures IsCurrent(w, log, i) && HasBlock(log, i)
    ensures disk[Staged(FinalPath(w0, i))] == BytesFor(z, log, i)
    ensures NeverStaged(w0, i) ==> At(disk, FinalPath(w0, i)) == At(disk0, FinalPath(w0, i))
  {
    hide Join, BytesFor, Dones, CountsReceived, InPlace;
    assert FileState(z, w0, disk0, w, disk, log, spoiled, i);
    PublishAt(w0, disk0, FinalPath(w0, i));
    PublishAt(w0, disk0, Staged(FinalPath(w0, i)));
  }
}
