/** The relay loop: two connections, each past its opening frame and switched to raw mode, whose bytes
    are passed on to each other until one of them ends. */
module Relay {
  import opened Octets
  import opened Codec
  import opened Channel

  /** A connection as it is accepted: what arrives before the first wait ends, and what arrives later. */
  datatype Conn = Conn(key: nat, early: seq<Bytes>, late: seq<Bytes>)

  /** One connection inside the relay: the reader's state, the chunks still to come, and the bytes
      written to it so far. */
  datatype Side = Side(codec: CodecState, buf: Bytes, left: seq<Bytes>, written: Bytes)

  /** Why the loop ended: a connection had no more bytes, or failed. */
  datatype End = PeerEof | StreamEof | Broken

  datatype RelayState = RelayState(stream: Side, peer: Side, ended: Option<End>)

  /** The branch of `select!` that fires. */
  datatype Turn = PeerReady | StreamReady | PeerFails | StreamFails

  /** A connection after `next_timeout`, whatever that returned. */
  function Opened(conn: Conn): Side {
    var p := Poll(FRESH, [], conn.early);
    Side(p.codec, p.buf, p.left + conn.late, [])
  }

  function RawSide(s: Side): Side {
    s.(codec := s.codec.(raw := true))
  }

  function Start(stream: Side, peer: Side): RelayState {
    RelayState(RawSide(stream), RawSide(peer), None)
  }

  function Take(s: Side): (Option<Bytes>, Side) {
    var p := Poll(s.codec, s.buf, s.left);
    (if p.out.Frame? then Some(p.out.data) else None, s.(codec := p.codec, buf := p.buf, left := p.left))
  }

  function Give(s: Side, data: Bytes): Side {
    s.(written := s.written + data)
  }

  function RelayTurn(r: RelayState, t: Turn): RelayState {
    if r.ended.Some? then r
    else
      match t
      case PeerFails => r.(ended := Some(Broken))
      case StreamFails => r.(ended := Some(Broken))
      case PeerReady =>
        (var (data, peer) := Take(r.peer);
         match data
         case Some(d) => r.(peer := peer, stream := Give(r.stream, d))
         case None => r.(peer := peer, ended := Some(PeerEof)))
      case StreamReady =>
        (var (data, stream) := Take(r.stream);
         match data
         case Some(d) => r.(stream := stream, peer := Give(r.peer, d))
         case None => r.(stream := stream, ended := Some(StreamEof)))
  }

  function RunRelay(r: RelayState, turns: seq<Turn>): RelayState
    decreases turns
  {
    if turns == [] then r else RunRelay(RelayTurn(r, turns[0]), turns[1..])
  }

  /** The bytes a side has yet to hand over. */
  function Pending(s: Side): Bytes {
    s.buf + Concat(s.left)
  }

  /** A raw side hands over the next of its pending bytes, and none only when it has none. */
  lemma {:induction false} TakeNext(s: Side)
    requires s.codec.raw
    ensures var (data, s') := Take(s);
            && s'.codec.raw && s'.written == s.written
            && match data
               case Some(d) => d != [] && Pending(s) == d + Pending(s')
               case None => Pending(s) == [] && Pending(s') == []
    decreases s.left
  {
    if s.buf == [] && s.left != [] {
      TakeNext(s.(buf := s.left[0], left := s.left[1..]));
      assert [] + s.left[0] == s.left[0];
    }
  }

  predicate BothRaw(r: RelayState) {
    r.stream.codec.raw && r.peer.codec.raw
  }

  /** `to` has been passed the front of what `from` had pending, and nothing else has moved. */
  ghost predicate Passes(from: Side, from': Side, to: Side, to': Side) {
    exists d: Bytes ::
      && d != [] && Pending(from) == d + Pending(from') && to'.written == to.written + d
      && from'.written == from.written && Pending(to') == Pending(to)
  }

  /** Main result, progress: a ready side that has bytes pending has some of them passed on, and the loop goes on;
      one that has none ends the loop as that side's end of stream; and only a failure ends it as
      broken. */
  lemma TurnProgress(r: RelayState, t: Turn)
    requires r.ended.None? && BothRaw(r)
    ensures var r' := RelayTurn(r, t);
            && BothRaw(r')
            && (r'.ended == Some(PeerEof) <==> t == PeerReady && Pending(r.peer) == [])
            && (r'.ended == Some(StreamEof) <==> t == StreamReady && Pending(r.stream) == [])
            && (r'.ended == Some(Broken) <==> t == PeerFails || t == StreamFails)
            && (t == PeerReady && Pending(r.peer) != [] ==> Passes(r.peer, r'.peer, r.stream, r'.stream))
            && (t == StreamReady && Pending(r.stream) != [] ==> Passes(r.stream, r'.stream, r.peer, r'.peer))
            && (r'.ended.Some? ==> r'.stream.written == r.stream.written && r'.peer.written == r.peer.written)
  {
    hide Pending, Take;
    TakeNext(r.peer);
    TakeNext(r.stream);
    var (fp, peer) := Take(r.peer);
    var (fs, stream) := Take(r.stream);
    NonEmptyFront(Pending(r.peer), fp, Pending(peer));
    NonEmptyFront(Pending(r.stream), fs, Pending(stream));
    if fp.Some? { SameWritten(r.stream, fp.value); }
    if fs.Some? { SameWritten(r.peer, fs.value); }
  }

  lemma NonEmptyFront(all: Bytes, d: Option<Bytes>, rest: Bytes)
    ensures d.Some? && d.value != [] && all == d.value + rest ==> all != []
  {
  }

  function CountTurns(turns: seq<Turn>, t: Turn): nat {
    if turns == [] then 0 else (if turns[0] == t then 1 else 0) + CountTurns(turns[1..], t)
  }

  /** Main result over runs: as long as the loop goes on, each ready turn of a side has passed on at least one of its
      bytes. So without failures more ready turns of a side than it has bytes end the loop, with all
      bytes of the side whose end ended it passed on. */
  lemma {:induction false} ReadyTurnsDeliver(r: RelayState, turns: seq<Turn>)
    requires r.ended.None? && BothRaw(r)
    ensures var r' := RunRelay(r, turns);
            && (r'.ended.None? ==>
                  && |r'.stream.written| >= |r.stream.written| + CountTurns(turns, PeerReady)
                  && |r'.peer.written| >= |r.peer.written| + CountTurns(turns, StreamReady))
            && (r'.ended == Some(Broken) ==> PeerFails in turns || StreamFails in turns)
            && (r'.ended == Some(PeerEof) ==> PeerReady in turns)
            && (r'.ended == Some(StreamEof) ==> StreamReady in turns)
            && (PeerFails in turns || StreamFails in turns ==> r'.ended.Some?)
    decreases turns
  {
    hide RelayTurn, Pending;
    if turns != [] {
      var r1 := RelayTurn(r, turns[0]);
      TurnProgress(r, turns[0]);
      assert turns == [turns[0]] + turns[1..];
      if r1.ended.None? {
        PassesGrows(r.peer, r1.peer, r.stream, r1.stream);
        PassesGrows(r.stream, r1.stream, r.peer, r1.peer);
        ReadyTurnsDeliver(r1, turns[1..]);
      } else {
        EndedStays(r1, turns[1..]);
      }
    }
  }

  lemma PassesGrows(from: Side, from': Side, to: Side, to': Side)
    ensures Passes(from, from', to, to') ==>
              |to'.written| >= |to.written| + 1 && |from'.written| == |from.written|
  {
  }

  lemma {:induction false} EndedStays(r: RelayState, turns: seq<Turn>)
    requires r.ended.Some?
    ensures RunRelay(r, turns) == r
    decreases turns
  {
    if turns != [] { EndedStays(r, turns[1..]); }
  }

  /** In particular: when the peer alone is ready, more often than it has bytes, all of them have been passed on. */
  lemma PeerAloneDelivers(stream: Side, peer: Side, turns: seq<Turn>)
    requires stream.written == [] && peer.written == []
    requires forall t <- turns :: t == PeerReady
    requires CountTurns(turns, PeerReady) > |Pending(peer)|
    ensures var r := RunRelay(Start(stream, peer), turns);
            r.ended == Some(PeerEof) && r.stream.written == Pending(peer)
  {
    hide RunRelay, Pending, CountTurns;
    RelayTransparent(stream, peer, turns);
    ReadyTurnsDeliver(Start(stream, peer), turns);
    var r := RunRelay(Start(stream, peer), turns);
    assert PeerFails !in turns && StreamFails !in turns && StreamReady !in turns;
    if r.ended.Some? { assert r.ended.value.PeerEof?; }
  }

  /** Nothing is lost, added or reordered: what was written to one side followed by what the other has
      yet to hand over is what the other had to hand over at the start. */
  ghost predicate Conserves(fromPeer: Bytes, fromStream: Bytes, r: RelayState) {
    && r.stream.codec.raw && r.peer.codec.raw
    && r.stream.written + Pending(r.peer) == fromPeer
    && r.peer.written + Pending(r.stream) == fromStream
    && (r.ended == Some(PeerEof) ==> Pending(r.peer) == [])
    && (r.ended == Some(StreamEof) ==> Pending(r.stream) == [])
  }

  lemma TurnConserves(fromPeer: Bytes, fromStream: Bytes, r: RelayState, t: Turn)
    requires Conserves(fromPeer, fromStream, r)
    ensures Conserves(fromPeer, fromStream, RelayTurn(r, t))
  {
    hide Pending, Take;
    TakeNext(r.peer);
    TakeNext(r.stream);
    var (fp, peer) := Take(r.peer);
    var (fs, stream) := Take(r.stream);
    SameWritten(r.stream, if fp.Some? then fp.value else []);
    SameWritten(r.peer, if fs.Some? then fs.value else []);
    if fp.Some? {
      assert (r.stream.written + fp.value) + Pending(peer) == r.stream.written + (fp.value + Pending(peer));
    }
    if fs.Some? {
      assert (r.peer.written + fs.value) + Pending(stream) == r.peer.written + (fs.value + Pending(stream));
    }
  }

  lemma SameWritten(s: Side, d: Bytes)
    ensures Pending(Give(s, d)) == Pending(s)
  {
  }

  lemma {:induction false} RunConserves(fromPeer: Bytes, fromStream: Bytes, r: RelayState, turns: seq<Turn>)
    requires Conserves(fromPeer, fromStream, r)
    ensures Conserves(fromPeer, fromStream, RunRelay(r, turns))
    decreases turns
  {
    hide Conserves, RelayTurn;
    if turns != [] {
      TurnConserves(fromPeer, fromStream, r, turns[0]);
      RunConserves(fromPeer, fromStream, RelayTurn(r, turns[0]), turns[1..]);
    }
  }

  /** Main result, relay transparency: under every interleaving of the branches and every chunking, each
      side has received a prefix of what the other sent behind the handover, and all of it in the
      direction whose end of stream ended the loop. */
  lemma RelayTransparent(stream: Side, peer: Side, turns: seq<Turn>)
    requires stream.written == [] && peer.written == []
    ensures var r := RunRelay(Start(stream, peer), turns);
            && r.stream.written <= Pending(peer)
            && r.peer.written <= Pending(stream)
            && (r.ended == Some(PeerEof) ==> r.stream.written == Pending(peer))
            && (r.ended == Some(StreamEof) ==> r.peer.written == Pending(stream))
  {
    hide RunRelay, Pending;
    var r0 := Start(stream, peer);
    PendingOfRaw(stream);
    PendingOfRaw(peer);
    assert [] + Pending(peer) == Pending(peer) && [] + Pending(stream) == Pending(stream);
    RunConserves(Pending(peer), Pending(stream), r0, turns);
  }

  lemma PendingOfRaw(s: Side)
    ensures Pending(RawSide(s)) == Pending(s)
  {
  }

  // ---------------------------------------------------------------------------------------
  // With the opening frame and framed endpoints

  /** A connection whose opening frame arrived in time hands over exactly what follows that frame. */
  lemma OpeningConsumed(conn: Conn, opening: Bytes, rest: Bytes)
    requires |opening| <= MAX_PAYLOAD
    requires Concat(conn.early + conn.late) == EncodeFrame(opening) + rest
    requires Poll(FRESH, [], conn.early).out.Frame?
    ensures Poll(FRESH, [], conn.early).out == Frame(opening)
    ensures Pending(Opened(conn)) == rest
  {
    hide Poll, IsHead, HeadBytes, Concat;
    var p := Poll(FRESH, [], conn.early);
    var head := PollConserves(FRESH, [], [], conn.early);
    var m := p.out.data;
    ConcatAppend(conn.early, conn.late);
    ConcatAppend(p.left, conn.late);
    var behind := p.buf + Concat(p.left) + Concat(conn.late);
    assert [] + ([] + Concat(conn.early)) == Concat(conn.early);
    assert head + (m + behind) == (head + m + (p.buf + Concat(p.left))) + Concat(conn.late);
    assert HeadBytes(|opening|) + (opening + rest) == EncodeFrame(opening) + rest;
    CanonicalIsHead(|opening|);
    HeadUnique(head, |m|, HeadBytes(|opening|), |opening|, m + behind, opening + rest);
    assert m == (m + behind)[..|m|] && opening == (opening + rest)[..|opening|];
    assert behind == (m + behind)[|m|..] && rest == (opening + rest)[|opening|..];
    assert Pending(Opened(conn)) == behind;
  }

  /** A connection whose opening frame did not arrive in time hands over all its bytes, except the head of that
      frame if all of it had arrived. */
  lemma OpeningExpired(conn: Conn)
    requires Poll(FRESH, [], conn.early).out.More?
    ensures Concat(conn.early + conn.late) == CompleteHead(Concat(conn.early)) + Pending(Opened(conn))
  {
    hide Poll, Concat, CompleteHead;
    var p := Poll(FRESH, [], conn.early);
    var head := PollConserves(FRESH, [], [], conn.early);
    RestsOnPartialFrame(FRESH, [], conn.early);
    OwedIsHead(p.codec, head, p.buf);
    ConcatAppend(conn.early, conn.late);
    ConcatAppend(p.left, conn.late);
    NoChunks();
    assert [] + ([] + Concat(conn.early)) == Concat(conn.early);
    assert [] + Concat(conn.late) == Concat(conn.late);
    assert (head + p.buf) + Concat(conn.late) == head + (p.buf + Concat(conn.late));
  }

  /** The relay of two accepted connections after some turns. */
  function Joined(stream: Conn, peer: Conn, turns: seq<Turn>): RelayState {
    RunRelay(Start(Opened(stream), Opened(peer)), turns)
  }

  /** What an endpoint has decoded is a prefix of the frames sent to it, without a failure, and all of
      them with nothing left over if the transfer is complete. */
  ghost predicate Delivers(d: Drained, msgs: seq<Bytes>, complete: bool) {
    && d.frames <= msgs && !d.failed
    && (complete ==> d == Drained(msgs, false, FRESH, []))
  }

  lemma FramesOutOfPrefix(msgs: seq<Bytes>, written: Bytes, arrived: seq<Bytes>)
    requires Sendable(msgs, MAX_PAYLOAD) && written <= EncodeAll(msgs) && Concat(arrived) == written
    ensures Delivers(FeedAll(FRESH, [], arrived), msgs, written == EncodeAll(msgs))
  {
    hide FeedAll, EncodeAll, Concat, Drain;
    var missing := EncodeAll(msgs)[|written|..];
    ArrivedFramesArePrefix(FRESH, msgs, arrived, missing);
    if written == EncodeAll(msgs) {
      FramesSurviveChunking(FRESH, msgs, arrived);
    }
  }

  /** A connection that carries an opening frame, taken in time by the server, and then frames. */
  ghost predicate Frames(conn: Conn, opening: Bytes, msgs: seq<Bytes>) {
    && |opening| <= MAX_PAYLOAD && Sendable(msgs, MAX_PAYLOAD)
    && Concat(conn.early + conn.late) == EncodeFrame(opening) + EncodeAll(msgs)
    && Poll(FRESH, [], conn.early).out.Frame?
  }

  /** Main result, frame by frame: two endpoints that each send an opening frame and then any frames, however
      their bytes are cut before and behind the relay, decode a prefix of each other's frames; and
      all of them in the direction whose end of stream ended the relay. */
  lemma FramesPassRelay(stream: Conn, peer: Conn, streamOpening: Bytes, peerOpening: Bytes,
                        streamMsgs: seq<Bytes>, peerMsgs: seq<Bytes>, turns: seq<Turn>,
                        atStream: seq<Bytes>, atPeer: seq<Bytes>)
    requires Frames(stream, streamOpening, streamMsgs) && Frames(peer, peerOpening, peerMsgs)
    requires Concat(atStream) == Joined(stream, peer, turns).stream.written
    requires Concat(atPeer) == Joined(stream, peer, turns).peer.written
    ensures var ended := Joined(stream, peer, turns).ended;
            && Delivers(FeedAll(FRESH, [], atStream), peerMsgs, ended == Some(PeerEof))
            && Delivers(FeedAll(FRESH, [], atPeer), streamMsgs, ended == Some(StreamEof))
  {
    hide RunRelay, FeedAll, Poll, EncodeAll, Pending, Concat, Drain, EncodeFrame;
    OpeningConsumed(stream, streamOpening, EncodeAll(streamMsgs));
    OpeningConsumed(peer, peerOpening, EncodeAll(peerMsgs));
    RelayTransparent(Opened(stream), Opened(peer), turns);
    var r := Joined(stream, peer, turns);
    FramesOutOfPrefix(peerMsgs, r.stream.written, atStream);
    FramesOutOfPrefix(streamMsgs, r.peer.written, atPeer);
  }
}
