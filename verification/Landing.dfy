/** Where the bytes of a receiving job go when writes break: for a job none of whose destinations is a staging
    name, the messages and their faults alone say what becomes of every file. */
module Landing {
  import opened Octets
  import opened Compression
  import opened Transfer
  import opened JobLog
  import opened Staging

  /** A message of the job, with the fault the file system commits when it is handled. */
  datatype Event = Event(msg: Msg, fault: Option<WriteFault>)

  function Messages(events: seq<Event>): (r: seq<Msg>)
    ensures |r| == |events|
  {
    seq(|events|, k requires 0 <= k < |events| => events[k].msg)
  }

  // ---------------------------------------------------------------------------------------
  // Where the job stands

  /** The file the job is at, the file that is open, and whether it is still under its staging name. */
  datatype Stand = Stand(at: int, open: Option<int>, staging: bool)

  predicate Switching(s: Stand, b: Block) {
    b.fileNum != s.at || s.open.None?
  }

  /** The switch to the block's file breaks off before its staging file is there. */
  predicate Stops(s: Stand, b: Block, fault: Option<WriteFault>) {
    Switching(s, b) && (fault == Some(NotCreated) || (fault == Some(SyncFailed) && s.open.Some?))
  }

  function Next(s: Stand, e: Event): Stand {
    match e.msg
    case MBlock(b) =>
      if !Switching(s, b) then s
      else if !Stops(s, b, e.fault) then Stand(b.fileNum, Some(b.fileNum), true)
      else Stand(if e.fault == Some(NotCreated) then b.fileNum else s.at, s.open, false)
    case MDone(_, _) => s.(staging := false)
    case MError(_, _, _) => s
  }

  function StandAfter(events: seq<Event>): Stand {
    if events == [] then Stand(0, None, false)
    else Next(StandAfter(events[..|events| - 1]), events[|events| - 1])
  }

  /** The file the block's bytes are added to: the one that is open, right or wrong. */
  function LandsOn(s: Stand, b: Block, fault: Option<WriteFault>): Option<int> {
    if !Switching(s, b) then s.open else if Stops(s, b, fault) then None else Some(b.fileNum)
  }

  /** As much of the block as is added. */
  function Part(z: Zstd, b: Block, fault: Option<WriteFault>): Bytes {
    match fault
    case Some(ShortWrite(n)) => Payload(z, b)[..Min(n, |Payload(z, b)|)]
    case _ => Payload(z, b)
  }

  // ---------------------------------------------------------------------------------------
  // What becomes of file `i`

  predicate BeginsNow(s: Stand, e: Event, i: int) {
    e.msg.MBlock? && e.msg.block.fileNum == i && Switching(s, e.msg.block) && !Stops(s, e.msg.block, e.fault)
  }

  /** Its staging file has been created. */
  predicate Begun(events: seq<Event>, i: int) {
    events != [] &&
    var front := events[..|events| - 1];
    Begun(front, i) || BeginsNow(StandAfter(front), events[|events| - 1], i)
  }

  predicate PublishesNow(s: Stand, e: Event, i: int) {
    s.at == i && (e.msg.MDone? || (e.msg.MBlock? && Switching(s, e.msg.block)))
  }

  /** Its staging name has been renamed, whatever was there. */
  predicate Published(events: seq<Event>, i: int) {
    events != [] &&
    var front := events[..|events| - 1];
    Published(front, i) || PublishesNow(StandAfter(front), events[|events| - 1], i)
  }

  /** It is the one being received. */
  predicate InWriting(events: seq<Event>, i: int) {
    var s := StandAfter(events);
    s.staging && s.open == Some(i)
  }

  predicate LandsNow(s: Stand, e: Event, i: int) {
    e.msg.MBlock? && LandsOn(s, e.msg.block, e.fault) == Some(i)
  }

  /** All bytes added to it, in order. */
  function Landed(z: Zstd, events: seq<Event>, i: int): Bytes {
    if events == [] then []
    else
      var front, e := events[..|events| - 1], events[|events| - 1];
      Landed(z, front, i) + (if LandsNow(StandAfter(front), e, i) then Part(z, e.msg.block, e.fault) else [])
  }

  /** Those of its own blocks, and those gone astray from the blocks of others. */
  function OwnBytes(z: Zstd, events: seq<Event>, i: int): Bytes {
    if events == [] then []
    else
      var front, e := events[..|events| - 1], events[|events| - 1];
      OwnBytes(z, front, i)
      + (if LandsNow(StandAfter(front), e, i) && IsBlockOf(e.msg, i) then Part(z, e.msg.block, e.fault) else [])
  }

  function StrayBytes(z: Zstd, events: seq<Event>, i: int): Bytes {
    if events == [] then []
    else
      var front, e := events[..|events| - 1], events[|events| - 1];
      StrayBytes(z, front, i)
      + (if LandsNow(StandAfter(front), e, i) && !IsBlockOf(e.msg, i) then Part(z, e.msg.block, e.fault) else [])
  }

  /** Every block of it that brings bytes has been added to it whole. */
  predicate Whole(z: Zstd, events: seq<Event>, i: int) {
    events == [] ||
    var front, e := events[..|events| - 1], events[|events| - 1];
    && Whole(z, front, i)
    && (IsBlockOf(e.msg, i) && Payload(z, e.msg.block) != [] ==>
          LandsNow(StandAfter(front), e, i) && |Part(z, e.msg.block, e.fault)| == |Payload(z, e.msg.block)|)
  }

  /** The staging file could not be created for one of its blocks. */
  predicate Missed(events: seq<Event>, i: int) {
    exists e <- events :: IsBlockOf(e.msg, i) && e.fault == Some(NotCreated)
  }

  lemma EventsSnoc(events: seq<Event>, e: Event, i: int)
    ensures var s, all := StandAfter(events), events + [e];
            && StandAfter(all) == Next(s, e)
            && (Begun(all, i) <==> Begun(events, i) || BeginsNow(s, e, i))
            && (Published(all, i) <==> Published(events, i) || PublishesNow(s, e, i))
            && (Missed(all, i) <==> Missed(events, i) || (IsBlockOf(e.msg, i) && e.fault == Some(NotCreated)))
            && Messages(all) == Messages(events) + [e.msg]
  {
    var all := events + [e];
    assert all[..|events|] == events && all[|events|] == e;
    assert forall x :: x in all <==> x in events || x == e;
  }

  lemma LandedSnoc(z: Zstd, events: seq<Event>, e: Event, i: int)
    ensures Landed(z, events + [e], i)
         == Landed(z, events, i) + (if LandsNow(StandAfter(events), e, i) then Part(z, e.msg.block, e.fault) else [])
  {
    assert (events + [e])[..|events|] == events;
  }

  // ---------------------------------------------------------------------------------------
  // What the events of an ordered run keep

  /** Files are begun in order, only a file that was begun is open, and bytes land only there. */
  ghost predicate Coherent(events: seq<Event>) {
    var s, log := StandAfter(events), Messages(events);
    && (if AnyBlock(log) then HasBlock(log, s.at) else s == Stand(0, None, false))
    && (forall i | Begun(events, i) :: HasBlock(log, i) && (i < s.at || (i == s.at && s.open == Some(i))))
    && (s.open.Some? ==> Begun(events, s.open.value))
    && (s.staging ==> s.open == Some(s.at))
  }

  lemma BegunFacts(events: seq<Event>, i: int)
    requires Coherent(events) && Begun(events, i)
    ensures var s := StandAfter(events);
            HasBlock(Messages(events), i) && (i < s.at || (i == s.at && s.open == Some(i)))
  {
  }

  lemma CoherentStep(events: seq<Event>, e: Event)
    requires Coherent(events)
    requires e.msg.MBlock? ==> forall x <- Messages(events) | x.MBlock? :: x.block.fileNum <= e.msg.block.fileNum
    ensures Coherent(events + [e])
  {
    hide StandAfter, Begun, Messages;
    var s, log, all := StandAfter(events), Messages(events), events + [e];
    EventsSnoc(events, e, s.at);
    AnyBlockSnoc(log, e.msg);
    BlocksSnoc(log, e.msg);
    var s' := StandAfter(all);
    forall i | Begun(all, i)
      ensures HasBlock(Messages(all), i) && (i < s'.at || (i == s'.at && s'.open == Some(i)))
    {
      EventsSnoc(events, e, i);
      if Begun(events, i) { BegunFacts(events, i); }
    }
    if s'.open.Some? { EventsSnoc(events, e, s'.open.value); }
  }

  lemma {:induction false} CoherentAlways(events: seq<Event>, n: nat)
    requires InOrder(Messages(events), n)
    ensures Coherent(events)
    decreases |events|
  {
    hide InOrder, Coherent;
    if events == [] {
      CoherentStart();
    } else {
      var front, e := events[..|events| - 1], events[|events| - 1];
      assert events == front + [e];
      EventsSnoc(front, e, 0);
      InOrderFront(Messages(front), e.msg, n);
      CoherentAlways(front, n);
      if e.msg.MBlock? { LastIsHighest(Messages(front), e.msg, n); }
      CoherentStep(front, e);
    }
  }

  lemma CoherentStart()
    ensures Coherent([])
  {
  }

  lemma InOrderFront(log: seq<Msg>, m: Msg, n: nat)
    requires InOrder(log + [m], n)
    ensures InOrder(log, n)
  {
    assert forall a | 0 <= a < |log| :: (log + [m])[a] == log[a];
  }

  // ---------------------------------------------------------------------------------------
  // Own bytes and stray ones

  /** Its own bytes come first: behind them only bytes of blocks whose file could not be created. */
  lemma {:induction false} OwnThenStray(z: Zstd, events: seq<Event>, n: nat, i: int)
    requires InOrder(Messages(events), n)
    ensures Landed(z, events, i) == OwnBytes(z, events, i) + StrayBytes(z, events, i)
    ensures StrayBytes(z, events, i) != [] ==> Begun(events, i) && i < StandAfter(events).at
    ensures !Begun(events, i) ==> Landed(z, events, i) == OwnBytes(z, events, i) == []
    decreases |events|
  {
    hide InOrder, Coherent, Part, Messages, StandAfter;
    if events != [] {
      var front, e := events[..|events| - 1], events[|events| - 1];
      assert events == front + [e];
      EventsSnoc(front, e, i);
      LandedSnoc(z, front, e, i);
      InOrderFront(Messages(front), e.msg, n);
      OwnThenStray(z, front, n, i);
      CoherentAlways(front, n);
      if e.msg.MBlock? { LastIsHighest(Messages(front), e.msg, n); }
      AtNeverFalls(front, e);
      var own, stray := OwnBytes(z, front, i), StrayBytes(z, front, i);
      if LandsNow(StandAfter(front), e, i) {
        var part := Part(z, e.msg.block, e.fault);
        BytesLandOnBegun(front, e, i);
        assert (own + stray) + part == own + (stray + part);
        assert stray == [] ==> (own + stray) + part == (own + part) + stray;
      } else {
        assert own + [] == own && stray + [] == stray && (own + stray) + [] == own + stray;
      }
    }
  }

  lemma AtNeverFalls(events: seq<Event>, e: Event)
    requires Coherent(events)
    requires e.msg.MBlock? ==> forall x <- Messages(events) | x.MBlock? :: x.block.fileNum <= e.msg.block.fileNum
    requires e.msg.MBlock? ==> 0 <= e.msg.block.fileNum
    ensures Next(StandAfter(events), e).at >= StandAfter(events).at
  {
    hide StandAfter, Messages, Begun;
  }

  /** Bytes land on a file once begun; those of other blocks only when the job has moved on. */
  lemma BytesLandOnBegun(events: seq<Event>, e: Event, i: int)
    requires Coherent(events) && LandsNow(StandAfter(events), e, i)
    requires forall x <- Messages(events) | x.MBlock? :: x.block.fileNum <= e.msg.block.fileNum
    ensures Begun(events, i) || BeginsNow(StandAfter(events), e, i)
    ensures IsBlockOf(e.msg, i) ==> !Begun(events, i) || i == StandAfter(events).at
    ensures !IsBlockOf(e.msg, i) ==> Begun(events, i) && i < StandAfter(events).at
    ensures BeginsNow(StandAfter(events), e, i) ==> !Begun(events, i)
  {
    hide StandAfter, Begun, Messages;
    if Begun(events, i) { BegunFacts(events, i); }
  }

  /** Its own bytes are all that was sent for it exactly if each of its blocks was added whole. */
  lemma {:induction false} OwnIsSentIff(z: Zstd, events: seq<Event>, i: int)
    ensures var own, sent := OwnBytes(z, events, i), BytesFor(z, Messages(events), i);
            && |own| <= |sent|
            && (own == sent <==> Whole(z, events, i))
            && (|own| == |sent| ==> own == sent)
    decreases |events|
  {
    hide StandAfter, Payload, Part, Messages;
    if events == [] {
      NothingSent(z, i);
    } else {
      var front, e := events[..|events| - 1], events[|events| - 1];
      assert events == front + [e];
      OwnIsSentIff(z, front, i);
      EventsSnoc(front, e, i);
      LogSnoc(z, Messages(front), e.msg, i);
      var s := StandAfter(front);
      var sent := if IsBlockOf(e.msg, i) then Payload(z, e.msg.block) else [];
      var got := if LandsNow(s, e, i) && IsBlockOf(e.msg, i) then Part(z, e.msg.block, e.fault) else [];
      if e.msg.MBlock? { PartOfPayload(z, e.msg.block, e.fault); }
      PartsMakeWhole(OwnBytes(z, front, i), BytesFor(z, Messages(front), i), got, sent);
    }
  }

  lemma NothingSent(z: Zstd, i: int)
    ensures BytesFor(z, Messages([]), i) == []
  {
  }

  lemma PartOfPayload(z: Zstd, b: Block, fault: Option<WriteFault>)
    ensures Part(z, b, fault) <= Payload(z, b)
  {
    hide Payload;
  }

  /** Main result: what has landed on a file is its own bytes and then the stray ones. It is what was sent for the file
      if every block of it was added whole and nothing went astray to it; otherwise only if bytes
      gone astray to it spell exactly the end it is missing. */
  lemma CompleteIff(z: Zstd, events: seq<Event>, n: nat, i: int)
    requires InOrder(Messages(events), n)
    ensures var own, stray, sent := OwnBytes(z, events, i), StrayBytes(z, events, i), BytesFor(z, Messages(events), i);
            && Landed(z, events, i) == own + stray
            && (Landed(z, events, i) == sent
                <==> (Whole(z, events, i) && stray == [])
                     || (!Whole(z, events, i) && stray != [] && own < sent && stray == sent[|own|..]))
  {
    hide OwnBytes, StrayBytes, Landed, Whole, InOrder, Messages;
    OwnThenStray(z, events, n, i);
    OwnIsSentIff(z, events, i);
    var own, stray, sent := OwnBytes(z, events, i), StrayBytes(z, events, i), BytesFor(z, Messages(events), i);
    assert own + [] == own;
    if own + stray == sent {
      assert own == sent[..|own|] && stray == sent[|own|..];
    }
    if own < sent && stray == sent[|own|..] {
      assert own + stray == sent;
    }
  }

  // ---------------------------------------------------------------------------------------
  // On the disk

  /** The job stands where its events put it. */
  ghost predicate Tracks(w0: Job, w: Job, s: Stand) {
    && w.id == w0.id && w.path == w0.path && w.files == w0.files
    && w.fileNum == s.at
    && (w.file.Some? <==> s.open.Some?)
    && (s.open.Some? ==>
          && 0 <= s.open.value < |w0.files|
          && var path := FinalPath(w0, s.open.value);
             w.file.value.path == if s.staging then Staged(path) else path)
  }

  /** What is under the final name of a file while nothing of it has been published: what was there, or the
      staging file left over from before, if that has been renamed. */
  ghost function LeftBehind(w0: Job, disk0: Disk, events: seq<Event>, i: nat): Option<Bytes>
    requires i < |w0.files|
  {
    var path := FinalPath(w0, i);
    if Published(events, i) && Staged(path) in disk0 then Some(disk0[Staged(path)]) else At(disk0, path)
  }

  /** The exact content of both names of file `i`. */
  ghost predicate Placed(z: Zstd, w0: Job, disk0: Disk, disk: Disk, events: seq<Event>, i: nat)
    requires i < |w0.files|
  {
    var path := FinalPath(w0, i);
    if !Begun(events, i) then
      && At(disk, path) == LeftBehind(w0, disk0, events, i)
      && At(disk, Staged(path)) == if Published(events, i) then None else At(disk0, Staged(path))
    else if InWriting(events, i) then
      && At(disk, path) == LeftBehind(w0, disk0, events, i)
      && At(disk, Staged(path)) == Some(Landed(z, events, i))
    else
      && At(disk, path) == Some(Landed(z, events, i))
      && At(disk, Staged(path)) == None
  }

  ghost predicate ExactInv(z: Zstd, w0: Job, disk0: Disk, w: Job, disk: Disk, events: seq<Event>) {
    && Tracks(w0, w, StandAfter(events))
    && forall i | 0 <= i < |w0.files| :: Placed(z, w0, disk0, disk, events, i)
  }

  lemma ExactStart(z: Zstd, w0: Job, disk0: Disk)
    requires w0 == NewJob(w0.id, w0.path, w0.files)
    ensures ExactInv(z, w0, disk0, w0, disk0, [])
  {
  }

  /** The result of a write, from where the job stands. */
  lemma ResultOf(z: Zstd, w: Job, disk: Disk, b: Block, fault: Option<WriteFault>, s: Stand)
    requires Accepts(w, b) && w.fileNum == s.at && (w.file.Some? <==> s.open.Some?)
    ensures Switches(w, b) <==> Switching(s, b)
    ensures var r := WriteBlock(z, w, disk, b, fault).2;
            && (Adds(r) <==> !Stops(s, b, fault))
            && (Adds(r) ==> Added(z, b, r) == Part(z, b, fault))
            && (Stops(s, b, fault) ==> r == Broke(if fault == Some(NotCreated) then NotCreated else SyncFailed))
  {
    hide Join, Payload, Publish;
  }

  /** Publishing renames the staging file of the file the job is at, if there is one. */
  lemma PublishPlaces(z: Zstd, w0: Job, disk0: Disk, w: Job, disk: Disk, events: seq<Event>, i: nat)
    requires DistinctFinals(w0) && NoStagingClash(w0) && i < |w0.files|
    requires Tracks(w0, w, StandAfter(events)) && Coherent(events) && Placed(z, w0, disk0, disk, events, i)
    ensures var disk' := Publish(w, disk).1;
            var path, s := FinalPath(w0, i), StandAfter(events);
            if i != s.at then At(disk', path) == At(disk, path) && At(disk', Staged(path)) == At(disk, Staged(path))
            else
              && At(disk', Staged(path)) == None
              && At(disk', path) == (if Begun(events, i) then Some(Landed(z, events, i))
                                     else if Staged(path) in disk0 then Some(disk0[Staged(path)])
                                     else At(disk0, path))
  {
    hide Join, Publish, StandAfter, Begun, Published, Landed, Messages;
    var path := FinalPath(w0, i);
    PublishAt(w, disk, path);
    PublishAt(w, disk, Staged(path));
    if w.fileNum < |w0.files| {
      assert FinalPath(w, w.fileNum) == FinalPath(w0, w.fileNum);
      StagedInjective(path, FinalPath(w0, w.fileNum));
    }
  }

  lemma WritePlaces(z: Zstd, w0: Job, disk0: Disk, w: Job, disk: Disk, events: seq<Event>,
                    b: Block, fault: Option<WriteFault>, n: nat, i: nat)
    requires DistinctFinals(w0) && NoStagingClash(w0) && i < |w0.files| == n
    requires Tracks(w0, w, StandAfter(events)) && Coherent(events)
    requires forall k | 0 <= k < |w0.files| :: Placed(z, w0, disk0, disk, events, k)
    requires b.id == w0.id && InOrder(Messages(events) + [MBlock(b)], n)
    ensures Placed(z, w0, disk0, WriteBlock(z, w, disk, b, fault).1, events + [Event(MBlock(b), fault)], i)
  {
    hide Join, Publish, StandAfter, Begun, Published, Landed, Messages, WriteBlock, InOrder, Part, Added, Placed;
    var s := StandAfter(events);
    LastIsHighest(Messages(events), MBlock(b), n);
    assert Placed(z, w0, disk0, disk, events, i);
    ResultOf(z, w, disk, b, fault, s);
    if !Switching(s, b) {
      AppendPlaces(z, w0, disk0, w, disk, events, b, fault, i);
    } else {
      InOrderFront(Messages(events), MBlock(b), n);
      OwnThenStray(z, events, n, i);
      SwitchPlaces(z, w0, disk0, w, disk, events, b, fault, i);
    }
  }

  lemma AppendPlaces(z: Zstd, w0: Job, disk0: Disk, w: Job, disk: Disk, events: seq<Event>,
                     b: Block, fault: Option<WriteFault>, i: nat)
    requires DistinctFinals(w0) && NoStagingClash(w0) && i < |w0.files|
    requires Tracks(w0, w, StandAfter(events)) && Coherent(events)
    requires Placed(z, w0, disk0, disk, events, i)
    requires b.id == w0.id && 0 <= b.fileNum < |w0.files| && !Switching(StandAfter(events), b)
    ensures Placed(z, w0, disk0, WriteBlock(z, w, disk, b, fault).1, events + [Event(MBlock(b), fault)], i)
  {
    hide Join, Publish, StandAfter, Begun, Published, Landed, Messages, WriteBlock, Part, Added;
    var e, s, path := Event(MBlock(b), fault), StandAfter(events), FinalPath(w0, i);
    EventsSnoc(events, e, i);
    LandedSnoc(z, events, e, i);
    ResultOf(z, w, disk, b, fault, s);
    WriteBlockAt(z, w, disk, b, fault, path);
    WriteBlockAt(z, w, disk, b, fault, Staged(path));
    StagedInjective(path, FinalPath(w0, s.open.value));
    assert Landed(z, events, i) + [] == Landed(z, events, i);
    if s.open == Some(i) {
      assert Begun(events, i);
    }
  }

  lemma SwitchPlaces(z: Zstd, w0: Job, disk0: Disk, w: Job, disk: Disk, events: seq<Event>,
                     b: Block, fault: Option<WriteFault>, i: nat)
    requires DistinctFinals(w0) && NoStagingClash(w0) && i < |w0.files|
    requires Tracks(w0, w, StandAfter(events)) && Coherent(events)
    requires Placed(z, w0, disk0, disk, events, i)
    requires b.id == w0.id && 0 <= b.fileNum < |w0.files| && Switching(StandAfter(events), b)
    requires forall x <- Messages(events) | x.MBlock? :: x.block.fileNum <= b.fileNum
    requires !Begun(events, i) ==> Landed(z, events, i) == []
    ensures Placed(z, w0, disk0, WriteBlock(z, w, disk, b, fault).1, events + [Event(MBlock(b), fault)], i)
  {
    hide Join, Publish, StandAfter, Begun, Published, Landed, Messages, WriteBlock, Part, Added;
    var e, s, path := Event(MBlock(b), fault), StandAfter(events), FinalPath(w0, i);
    var disk' := WriteBlock(z, w, disk, b, fault).1;
    EventsSnoc(events, e, i);
    LandedSnoc(z, events, e, i);
    ResultOf(z, w, disk, b, fault, s);
    PublishPlaces(z, w0, disk0, w, disk, events, i);
    WriteBlockAt(z, w, disk, b, fault, path);
    WriteBlockAt(z, w, disk, b, fault, Staged(path));
    assert FinalPath(w, b.fileNum) == FinalPath(w0, b.fileNum);
    StagedInjective(path, FinalPath(w0, b.fileNum));
    assert Landed(z, events, i) + [] == Landed(z, events, i);
    assert [] + Part(z, b, fault) == Part(z, b, fault);
    if Begun(events, i) {
      BegunFacts(events, i);
    }
  }

  /** The open file after a write. */
  lemma WriteTracks(z: Zstd, w0: Job, disk0: Disk, w: Job, disk: Disk, events: seq<Event>,
                    b: Block, fault: Option<WriteFault>)
    requires DistinctFinals(w0) && NoStagingClash(w0)
    requires ExactInv(z, w0, disk0, w, disk, events) && Coherent(events)
    requires b.id == w0.id && 0 <= b.fileNum < |w0.files|
    ensures Tracks(w0, WriteBlock(z, w, disk, b, fault).0, Next(StandAfter(events), Event(MBlock(b), fault)))
  {
    hide Join, Publish, StandAfter, Begun, Published, Landed, Messages, WriteBlock, Part, Added;
    var s := StandAfter(events);
    ResultOf(z, w, disk, b, fault, s);
    WriteBlockJob(z, w, disk, b, fault);
    PublishKeepsJob(w, disk);
    if s.open.Some? {
      var o := s.open.value;
      assert Placed(z, w0, disk0, disk, events, o);
      assert FinalPath(w, o) == FinalPath(w0, o);
      StagedInjective(FinalPath(w0, o), FinalPath(w0, o));
      if 0 <= s.at < |w0.files| { assert FinalPath(w, s.at) == FinalPath(w0, s.at); }
    }
  }

  lemma ExactBlock(z: Zstd, w0: Job, disk0: Disk, w: Job, disk: Disk, events: seq<Event>,
                   b: Block, fault: Option<WriteFault>)
    requires DistinctFinals(w0) && NoStagingClash(w0) && ExactInv(z, w0, disk0, w, disk, events)
    requires b.id == w0.id && InOrder(Messages(events) + [MBlock(b)], |w0.files|)
    ensures var (w', disk', _) := WriteBlock(z, w, disk, b, fault);
            ExactInv(z, w0, disk0, w', disk', events + [Event(MBlock(b), fault)])
  {
    hide Join, Publish, StandAfter, Messages, WriteBlock, Placed, InOrder, Coherent, DistinctFinals, NoStagingClash,
         Tracks;
    var e := Event(MBlock(b), fault);
    InOrderFront(Messages(events), e.msg, |w0.files|);
    CoherentAlways(events, |w0.files|);
    LastIsHighest(Messages(events), e.msg, |w0.files|);
    EventsSnoc(events, e, 0);
    WriteTracks(z, w0, disk0, w, disk, events, b, fault);
    forall i | 0 <= i < |w0.files|
      ensures Placed(z, w0, disk0, WriteBlock(z, w, disk, b, fault).1, events + [e], i)
    {
      WritePlaces(z, w0, disk0, w, disk, events, b, fault, |w0.files|, i);
    }
  }

  lemma ExactDone(z: Zstd, w0: Job, disk0: Disk, w: Job, disk: Disk, events: seq<Event>, e: Event)
    requires DistinctFinals(w0) && NoStagingClash(w0) && ExactInv(z, w0, disk0, w, disk, events)
    requires e.msg.MDone? && InOrder(Messages(events), |w0.files|)
    ensures var (w', disk') := Publish(w, disk);
            ExactInv(z, w0, disk0, w', disk', events + [e])
  {
    hide Join, Publish, StandAfter, Begun, Published, Landed, Messages, InOrder, NoStagingClash, DistinctFinals;
    var s := StandAfter(events);
    CoherentAlways(events, |w0.files|);
    PublishKeepsJob(w, disk);
    if s.open.Some? {
      var o := s.open.value;
      assert Placed(z, w0, disk0, disk, events, o);
      assert FinalPath(w, o) == FinalPath(w0, o);
      OpenIsRenamed(w0, w, s, o);
    }
    EventsSnoc(events, e, 0);
    forall i | 0 <= i < |w0.files| ensures Placed(z, w0, disk0, Publish(w, disk).1, events + [e], i) {
      assert Placed(z, w0, disk0, disk, events, i);
      EventsSnoc(events, e, i);
      LandedSnoc(z, events, e, i);
      PublishPlaces(z, w0, disk0, w, disk, events, i);
      assert Landed(z, events, i) + [] == Landed(z, events, i);
      if Begun(events, i) { BegunFacts(events, i); }
    }
  }

  lemma OpenIsRenamed(w0: Job, w: Job, s: Stand, o: nat)
    requires NoStagingClash(w0) && Tracks(w0, w, s) && s.open == Some(o)
    ensures !s.staging && 0 <= s.at < |w0.files| ==> w.file.value.path != Staged(FinalPath(w, s.at))
  {
    if 0 <= s.at < |w0.files| { assert FinalPath(w, s.at) == FinalPath(w0, s.at); }
  }

  lemma ExactError(z: Zstd, w0: Job, disk0: Disk, w: Job, disk: Disk, events: seq<Event>, e: Event)
    requires ExactInv(z, w0, disk0, w, disk, events) && e.msg.MError?
    ensures ExactInv(z, w0, disk0, w, disk, events + [e])
  {
    hide Join, StandAfter, Begun, Published, Landed, Messages, Tracks;
    EventsSnoc(events, e, 0);
    forall i | 0 <= i < |w0.files| ensures Placed(z, w0, disk0, disk, events + [e], i) {
      assert Placed(z, w0, disk0, disk, events, i);
      EventsSnoc(events, e, i);
      LandedSnoc(z, events, e, i);
      assert Landed(z, events, i) + [] == Landed(z, events, i);
    }
  }

  lemma SameOnKeepsExact(z: Zstd, w0: Job, disk0: Disk, w: Job, a: Disk, b: Disk, events: seq<Event>)
    requires ExactInv(z, w0, disk0, w, a, events) && SameOn(w0, a, b)
    ensures ExactInv(z, w0, disk0, w, b, events)
  {
    hide Join, StandAfter, Begun, Published, Landed, Tracks;
    forall i | 0 <= i < |w0.files| ensures Placed(z, w0, disk0, b, events, i) {
      assert Placed(z, w0, disk0, a, events, i);
    }
  }

  // ---------------------------------------------------------------------------------------
  // Leftovers

  /** The names of file 0 are published with the first message that touches the disk. */
  lemma {:induction false} FirstPublishedIff(events: seq<Event>)
    ensures Published(events, 0) <==> AnyBlock(Messages(events)) || Dones(Messages(events)) > 0
    ensures !Published(events, 0) ==> StandAfter(events) == Stand(0, None, false)
    decreases |events|
  {
    hide StandAfter, Published, Messages, AnyBlock, Dones;
    if events == [] {
      NothingYet();
    } else {
      var front, e := events[..|events| - 1], events[|events| - 1];
      assert events == front + [e];
      FirstPublishedIff(front);
      EventsSnoc(front, e, 0);
      AnyBlockSnoc(Messages(front), e.msg);
      DonesSnoc(Messages(front), e.msg);
    }
  }

  lemma NothingYet()
    ensures StandAfter([]) == Stand(0, None, false) && Messages([]) == []
    ensures forall i :: !Published([], i) && !Begun([], i) && !Missed([], i)
    ensures !AnyBlock([]) && Dones([]) == 0
  {
  }

  /** The names of a file never begun are published, or will be with the next switch or the end, exactly if it is
      file 0 or its staging file could not be created. */
  lemma {:induction false} PublishedIff(events: seq<Event>, n: nat, i: int)
    requires InOrder(Messages(events), n) && !Begun(events, i)
    ensures Published(events, i) || StandAfter(events).at == i <==> i == 0 || Missed(events, i)
    ensures Dones(Messages(events)) > 0 && StandAfter(events).at == i ==> Published(events, i)
    decreases |events|
  {
    hide StandAfter, Published, Messages, Dones, InOrder, Begun, Missed;
    if events == [] {
      NothingYet();
    } else {
      var front, e := events[..|events| - 1], events[|events| - 1];
      assert events == front + [e];
      EventsSnoc(front, e, i);
      InOrderFront(Messages(front), e.msg, n);
      PublishedIff(front, n, i);
      DonesSnoc(Messages(front), e.msg);
      if e.msg.MBlock? { NoBlockAfterEnd(Messages(front), e.msg, n); }
    }
  }

  lemma NoBlockAfterEnd(log: seq<Msg>, m: Msg, n: nat)
    requires InOrder(log + [m], n) && m.MBlock?
    ensures Dones(log) == 0
  {
    forall a | 0 <= a < |log| ensures !log[a].MDone? {
      assert (log + [m])[a] == log[a] && (log + [m])[|log|] == m;
    }
    NoneDone(log);
  }

  lemma NoBlockNothingDone(events: seq<Event>, n: nat, i: int)
    requires InOrder(Messages(events), n) && !HasBlock(Messages(events), i)
    ensures !Begun(events, i) && !Missed(events, i)
  {
    CoherentAlways(events, n);
    forall e <- events ensures !IsBlockOf(e.msg, i) {
      var k :| 0 <= k < |events| && events[k] == e;
      assert Messages(events)[k] in Messages(events);
    }
  }

  /** A name is published only of a file begun, of file 0, or of one that could not be created. */
  lemma {:induction false} PromotedIsMissed(events: seq<Event>, n: nat, i: int)
    requires InOrder(Messages(events), n)
    ensures Published(events, i) && (!Begun(events, i) || InWriting(events, i)) ==> i == 0 || Missed(events, i)
    decreases |events|
  {
    hide StandAfter, Published, Messages, InOrder, Begun, Missed;
    if events == [] {
      NothingYet();
    } else {
      var front, e := events[..|events| - 1], events[|events| - 1];
      assert events == front + [e];
      EventsSnoc(front, e, i);
      InOrderFront(Messages(front), e.msg, n);
      PromotedIsMissed(front, n, i);
      CoherentAlways(front, n);
      if e.msg.MBlock? { LastIsHighest(Messages(front), e.msg, n); }
      if !Begun(front, i) { PublishedIff(front, n, i); }
    }
  }

  lemma PassedBy(log: seq<Msg>, k: int, i: int)
    ensures HasBlock(log, k) && k > i ==> Passed(log, i)
  {
    if HasBlock(log, k) {
      var m :| m in log && IsBlockOf(m, k);
    }
  }

  /** A file begun and no longer in writing has been passed, or the job has ended. */
  lemma {:induction false} LeftIsPassed(events: seq<Event>, n: nat, i: int)
    requires InOrder(Messages(events), n)
    ensures Begun(events, i) && !InWriting(events, i) ==>
              HasBlock(Messages(events), i) && (Dones(Messages(events)) > 0 || Passed(Messages(events), i))
    decreases |events|
  {
    hide StandAfter, Messages, InOrder, Begun, Dones;
    if events != [] {
      var front, e := events[..|events| - 1], events[|events| - 1];
      assert events == front + [e];
      EventsSnoc(front, e, i);
      InOrderFront(Messages(front), e.msg, n);
      LeftIsPassed(front, n, i);
      CoherentAlways(front, n);
      CoherentAlways(events, n);
      DonesSnoc(Messages(front), e.msg);
      AnyBlockSnoc(Messages(front), e.msg);
      if Begun(events, i) { BegunFacts(events, i); }
      if Begun(front, i) { BegunFacts(front, i); }
      if e.msg.MBlock? {
        LastIsHighest(Messages(front), e.msg, n);
        assert e.msg in Messages(events);
      }
      PassedBy(Messages(events), StandAfter(events).at, i);
    } else {
      NothingYet();
    }
  }

  /** Main result on leftovers, at every moment: the staging file left over from before of a file no block has
      come for is promoted exactly if it is that of file 0 and the job has acted at all. */
  lemma LeftoverPromotedIff(z: Zstd, w0: Job, disk0: Disk, w: Job, disk: Disk, events: seq<Event>, i: nat)
    requires ExactInv(z, w0, disk0, w, disk, events) && InOrder(Messages(events), |w0.files|) && i < |w0.files|
    requires Staged(FinalPath(w0, i)) in disk0
             && At(disk0, Staged(FinalPath(w0, i))) != At(disk0, FinalPath(w0, i))
    requires !HasBlock(Messages(events), i)
    ensures At(disk, FinalPath(w0, i)) == At(disk0, Staged(FinalPath(w0, i)))
        <==> i == 0 && (AnyBlock(Messages(events)) || Dones(Messages(events)) > 0)
  {
    hide Join, StandAfter, Published, Landed, Tracks, AnyBlock, Dones, HasBlock, InOrder, Messages;
    assert Placed(z, w0, disk0, disk, events, i);
    NoBlockNothingDone(events, |w0.files|, i);
    if i == 0 {
      FirstPublishedIff(events);
    } else {
      PublishedIff(events, |w0.files|, i);
    }
  }

  /** The content of both names of file `i` at the end of the job, from its messages and their faults alone. */
  ghost predicate EndsAs(z: Zstd, w0: Job, disk0: Disk, disk: Disk, events: seq<Event>, i: nat)
    requires i < |w0.files|
  {
    var path := FinalPath(w0, i);
    if Begun(events, i) then
      At(disk, path) == Some(Landed(z, events, i)) && Staged(path) !in disk
    else if i == 0 || Missed(events, i) then
      && At(disk, path) == (if Staged(path) in disk0 then Some(disk0[Staged(path)]) else At(disk0, path))
      && Staged(path) !in disk
    else
      At(disk, path) == At(disk0, path) && At(disk, Staged(path)) == At(disk0, Staged(path))
  }

  /** Main result, the end of a job under every fault: a file once begun holds exactly the bytes that landed on it;
      of the others, the leftover of file 0 and of every file that could not be created has become
      final, and nothing else has changed. */
  lemma EndContent(z: Zstd, w0: Job, disk0: Disk, w: Job, disk: Disk, events: seq<Event>, i: nat)
    requires ExactInv(z, w0, disk0, w, disk, events) && InOrder(Messages(events), |w0.files|) && i < |w0.files|
    requires Dones(Messages(events)) > 0
    ensures EndsAs(z, w0, disk0, disk, events, i)
  {
    hide Join, StandAfter, Published, Landed, Tracks, Dones, InOrder, Messages, Begun, Missed;
    assert Placed(z, w0, disk0, disk, events, i);
    NotInWritingAtEnd(events, |w0.files|, i);
    if !Begun(events, i) { PublishedIff(events, |w0.files|, i); }
  }

  /** Main result on leftovers, at the end of a job: a leftover is final exactly if its file was never begun and is
      file 0 or could not be created, or by coincidence if it was begun and exactly those bytes landed on it. */
  lemma LeftoverFinalIff(z: Zstd, w0: Job, disk0: Disk, w: Job, disk: Disk, events: seq<Event>, i: nat)
    requires ExactInv(z, w0, disk0, w, disk, events) && InOrder(Messages(events), |w0.files|) && i < |w0.files|
    requires Staged(FinalPath(w0, i)) in disk0
             && At(disk0, Staged(FinalPath(w0, i))) != At(disk0, FinalPath(w0, i))
    requires Dones(Messages(events)) > 0
    ensures At(disk, FinalPath(w0, i)) == At(disk0, Staged(FinalPath(w0, i)))
        <==> if Begun(events, i) then Landed(z, events, i) == disk0[Staged(FinalPath(w0, i))]
             else i == 0 || Missed(events, i)
  {
    hide ExactInv, InOrder, Messages, Begun, Missed, Landed, Join, Dones;
    EndContent(z, w0, disk0, w, disk, events, i);
  }

  /** Without a leftover of its own, a file has a staging file exactly while it is being received, holding what has
      landed on it so far. */
  lemma StagedIffInWriting(z: Zstd, w0: Job, disk0: Disk, w: Job, disk: Disk, events: seq<Event>, i: nat)
    requires ExactInv(z, w0, disk0, w, disk, events) && InOrder(Messages(events), |w0.files|) && i < |w0.files|
    requires Staged(FinalPath(w0, i)) !in disk0
    ensures Staged(FinalPath(w0, i)) in disk <==> InWriting(events, i)
    ensures InWriting(events, i) ==> disk[Staged(FinalPath(w0, i))] == Landed(z, events, i)
                                     && At(disk, FinalPath(w0, i)) == At(disk0, FinalPath(w0, i))
  {
    hide Join, StandAfter, Published, Landed, Tracks, InOrder, Messages, Begun;
    CoherentAlways(events, |w0.files|);
    assert Placed(z, w0, disk0, disk, events, i);
  }

  /** Main result on broken writes: at the end of a job a file once begun is all that was sent for it exactly if each
      of its blocks was added whole and no other's went astray to it, or if bytes gone astray to it spell
      exactly the end it is missing. A file never begun holds none of the bytes sent for it. */
  lemma CompleteAtEndIff(z: Zstd, w0: Job, disk0: Disk, w: Job, disk: Disk, events: seq<Event>, i: nat)
    requires ExactInv(z, w0, disk0, w, disk, events) && InOrder(Messages(events), |w0.files|) && i < |w0.files|
    requires Dones(Messages(events)) > 0 && Begun(events, i)
    ensures var own, stray, sent := OwnBytes(z, events, i), StrayBytes(z, events, i), BytesFor(z, Messages(events), i);
            At(disk, FinalPath(w0, i)) == Some(sent)
            <==> (Whole(z, events, i) && stray == [])
                 || (!Whole(z, events, i) && stray != [] && own < sent && stray == sent[|own|..])
  {
    hide ExactInv, InOrder, Messages, Begun, Missed, Whole, Landed, OwnBytes, StrayBytes, Join, Dones;
    EndContent(z, w0, disk0, w, disk, events, i);
    CompleteIff(z, events, |w0.files|, i);
  }

  /** As long as every staging file can be created, no bytes go astray. */
  lemma {:induction false} NoMissNoStray(z: Zstd, events: seq<Event>, i: int)
    requires forall e <- events | e.msg.MBlock? :: e.fault != Some(NotCreated)
    ensures StrayBytes(z, events, i) == []
    ensures StandAfter(events).open.Some? ==> StandAfter(events).open.value == StandAfter(events).at
    decreases |events|
  {
    hide Payload, Part;
    if events != [] {
      var front := events[..|events| - 1];
      assert events[|events| - 1] in events;
      assert forall e <- front :: e in events;
      NoMissNoStray(z, front, i);
    }
  }

  lemma {:induction false} NotInWritingAtEnd(events: seq<Event>, n: nat, i: int)
    requires InOrder(Messages(events), n) && Dones(Messages(events)) > 0
    ensures !StandAfter(events).staging
    decreases |events|
  {
    hide Messages, Dones, InOrder;
    if events == [] {
      NothingYet();
    } else {
      var front, e := events[..|events| - 1], events[|events| - 1];
      assert events == front + [e];
      EventsSnoc(front, e, i);
      InOrderFront(Messages(front), e.msg, n);
      DonesSnoc(Messages(front), e.msg);
      if e.msg.MBlock? {
        NoBlockAfterEnd(Messages(front), e.msg, n);
      } else if Dones(Messages(front)) > 0 {
        NotInWritingAtEnd(front, n, i);
      }
    }
  }

  // ---------------------------------------------------------------------------------------
  // A receiving job, whatever its destinations are called

  /** The files a broken write spoils: its own; and if a staging file cannot be created while a file is open, the
      file the job is at, because the blocks that follow go to its end. */
  function SpoilsNow(s: Stand, e: Event): set<int> {
    if !e.msg.MBlock? then {}
    else if Stops(s, e.msg.block, e.fault) then
      {e.msg.block.fileNum} + (if e.fault == Some(NotCreated) && s.open.Some? then {s.at} else {})
    else if e.fault.Some? && e.fault.value.ShortWrite? then {e.msg.block.fileNum}
    else {}
  }

  function SpoiledBy(events: seq<Event>): set<int> {
    if events == [] then {}
    else
      var front := events[..|events| - 1];
      SpoiledBy(front) + SpoilsNow(StandAfter(front), events[|events| - 1])
  }

  lemma SpoiledSnoc(events: seq<Event>, e: Event)
    ensures SpoiledBy(events + [e]) == SpoiledBy(events) + SpoilsNow(StandAfter(events), e)
  {
    assert (events + [e])[..|events|] == events;
  }

  /** Without faults no file is spoiled. */
  lemma {:induction false} NothingSpoiled(events: seq<Event>)
    requires forall e <- events :: e.fault.None?
    ensures SpoiledBy(events) == {}
    decreases |events|
  {
    if events != [] {
      assert events[|events| - 1] in events;
      NothingSpoiled(events[..|events| - 1]);
    }
  }

  /** A job that is at one file with another one open has failed to create the first. */
  lemma {:induction false} OtherOpenIsSpoiled(events: seq<Event>)
    ensures var s := StandAfter(events); s.open.Some? && s.open.value != s.at ==> s.at in SpoiledBy(events)
    decreases |events|
  {
    if events != [] { OtherOpenIsSpoiled(events[..|events| - 1]); }
  }

  /** To a file that no broken write has spoiled every block was added whole, and nothing else. */
  lemma {:induction false} UnspoiledIsWhole(z: Zstd, events: seq<Event>, i: int)
    requires i !in SpoiledBy(events)
    ensures Whole(z, events, i) && StrayBytes(z, events, i) == []
    ensures StandAfter(events).open == Some(i) ==> StandAfter(events).at == i
    decreases |events|
  {
    hide Payload;
    if events != [] {
      UnspoiledIsWhole(z, events[..|events| - 1], i);
      OtherOpenIsSpoiled(events[..|events| - 1]);
    }
  }

  /** Number and open file of the job are where its events put them. */
  ghost predicate Follows(w: Job, s: Stand) {
    w.fileNum == s.at && (w.file.Some? <==> s.open.Some?)
  }

  /** The invariant of a receiving job: that of staging for the files not spoiled; and, if none of its destinations is a
      staging name, the exact content of all its files. */
  ghost predicate JobInv(z: Zstd, w0: Job, disk0: Disk, w: Job, disk: Disk, events: seq<Event>) {
    && WriterInv(z, w0, disk0, w, disk, Messages(events), SpoiledBy(events))
    && Follows(w, StandAfter(events))
    && (NoStagingClash(w0) ==> ExactInv(z, w0, disk0, w, disk, events))
  }

  lemma JobStart(z: Zstd, w0: Job, disk0: Disk)
    requires w0 == NewJob(w0.id, w0.path, w0.files)
    ensures JobInv(z, w0, disk0, w0, disk0, [])
  {
    hide WriterInv, ExactInv;
    WriterStart(z, w0, disk0);
    ExactStart(z, w0, disk0);
    NothingYet();
  }

  lemma JobBlock(z: Zstd, w0: Job, disk0: Disk, w: Job, disk: Disk, events: seq<Event>,
                 b: Block, fault: Option<WriteFault>)
    requires DistinctFinals(w0) && w0.fileNum == 0 && JobInv(z, w0, disk0, w, disk, events)
    requires b.id == w0.id && Dones(Messages(events)) == 0
    requires InOrder(Messages(events) + [MBlock(b)], |w0.files|)
    ensures var (w', disk', _) := WriteBlock(z, w, disk, b, fault);
            JobInv(z, w0, disk0, w', disk', events + [Event(MBlock(b), fault)])
  {
    hide WriterInv, ExactInv, WriteBlock, StandAfter, SpoiledBy, Messages, InOrder, NoStagingClash, DistinctFinals,
         Publish, Spoils, Dones, Payload;
    var e := Event(MBlock(b), fault);
    EventsSnoc(events, e, 0);
    SpoiledSnoc(events, e);
    WriterAccepts(z, w0, disk0, w, disk, Messages(events), SpoiledBy(events), b);
    WriterBlock(z, w0, disk0, w, disk, Messages(events), SpoiledBy(events), b, fault);
    SpoilsAre(z, w, disk, b, fault, StandAfter(events));
    WriteFollows(z, w, disk, b, fault, StandAfter(events));
    if NoStagingClash(w0) {
      ExactBlock(z, w0, disk0, w, disk, events, b, fault);
    }
  }

  lemma WriterAccepts(z: Zstd, w0: Job, disk0: Disk, w: Job, disk: Disk, log: seq<Msg>, spoiled: set<int>, b: Block)
    requires WriterInv(z, w0, disk0, w, disk, log, spoiled)
    requires b.id == w0.id && InOrder(log + [MBlock(b)], |w0.files|)
    ensures Accepts(w, b)
  {
    LastIsHighest(log, MBlock(b), |w0.files|);
  }

  lemma SpoilsAre(z: Zstd, w: Job, disk: Disk, b: Block, fault: Option<WriteFault>, s: Stand)
    requires Accepts(w, b) && Follows(w, s)
    ensures Spoils(w, b, WriteBlock(z, w, disk, b, fault).2) == SpoilsNow(s, Event(MBlock(b), fault))
  {
    hide Join, Payload, Publish;
  }

  lemma WriteFollows(z: Zstd, w: Job, disk: Disk, b: Block, fault: Option<WriteFault>, s: Stand)
    requires Accepts(w, b) && Follows(w, s)
    ensures Follows(WriteBlock(z, w, disk, b, fault).0, Next(s, Event(MBlock(b), fault)))
  {
    hide Join, Payload, Publish, WriteBlock, Added;
    ResultOf(z, w, disk, b, fault, s);
    WriteBlockJob(z, w, disk, b, fault);
    PublishKeepsJob(w, disk);
  }

  lemma JobDone(z: Zstd, w0: Job, disk0: Disk, w: Job, disk: Disk, events: seq<Event>, e: Event)
    requires DistinctFinals(w0) && JobInv(z, w0, disk0, w, disk, events)
    requires e.msg.MDone? && Dones(Messages(events)) == 0 && InOrder(Messages(events), |w0.files|)
    ensures var (w', disk') := Publish(w, disk);
            JobInv(z, w0, disk0, w', disk', events + [e])
  {
    hide WriterInv, ExactInv, StandAfter, SpoiledBy, Messages, InOrder, NoStagingClash, DistinctFinals, Publish, Dones;
    EventsSnoc(events, e, 0);
    SpoiledSnoc(events, e);
    assert SpoiledBy(events) + {} == SpoiledBy(events);
    WriterDone(z, w0, disk0, w, disk, Messages(events), SpoiledBy(events), e.msg);
    PublishKeepsJob(w, disk);
    if NoStagingClash(w0) {
      ExactDone(z, w0, disk0, w, disk, events, e);
    }
  }

  lemma JobError(z: Zstd, w0: Job, disk0: Disk, w: Job, disk: Disk, events: seq<Event>, e: Event)
    requires JobInv(z, w0, disk0, w, disk, events) && e.msg.MError?
    ensures JobInv(z, w0, disk0, w, disk, events + [e])
  {
    hide WriterInv, ExactInv, StandAfter, SpoiledBy, Messages, NoStagingClash;
    EventsSnoc(events, e, 0);
    SpoiledSnoc(events, e);
    assert SpoiledBy(events) + {} == SpoiledBy(events);
    WriterError(z, w0, disk0, w, disk, Messages(events), SpoiledBy(events), e.msg);
    if NoStagingClash(w0) {
      ExactError(z, w0, disk0, w, disk, events, e);
    }
  }

  lemma SameOnKeepsJob(z: Zstd, w0: Job, disk0: Disk, w: Job, a: Disk, b: Disk, events: seq<Event>)
    requires JobInv(z, w0, disk0, w, a, events) && SameOn(w0, a, b)
    ensures JobInv(z, w0, disk0, w, b, events)
  {
    hide WriterInv, ExactInv, SameOn, NoStagingClash;
    SameOnKeepsWriter(z, w0, disk0, w, a, b, Messages(events), SpoiledBy(events));
    if NoStagingClash(w0) {
      SameOnKeepsExact(z, w0, disk0, w, a, b, events);
    }
  }
}
