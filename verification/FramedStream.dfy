/** A TCP stream carrying frames, optionally sealed: each end numbers the messages of a direction
    and seals message number n under the nonce spelled by n.

    `Poll` is what awaiting the next frame does to the codec and its read buffer, given the chunks
    the network delivers meanwhile; `Receive` and `Send` are the message operations on values, and
    class `FramedStream` performs them in place. */
module Channel {
  import opened Octets
  import opened Codec

  type Key = Bytes

  const NONCE_BYTES := 24

  /** 2^64: message counters are u64. */
  const COUNTER_LIMIT: nat := 0x1_0000_0000_0000_0000

  /** The secret-key cipher, as two functions. */
  datatype Cipher = Cipher(
    seal: (Bytes, Bytes, Key) -> Bytes,
    open: (Bytes, Bytes, Key) -> Option<Bytes>)

  /** What the channel needs of the cipher: opening undoes sealing under the same nonce and key. */
  ghost predicate Faithful(cipher: Cipher) {
    forall m, n, k :: cipher.open(cipher.seal(m, n, k), n, k) == Some(m)
  }

  datatype Session = Session(key: Key, sent: nat, received: nat)

  datatype Endpoint = Endpoint(codec: CodecState, buf: Bytes, session: Option<Session>)

  datatype Received = Message(data: Bytes) | Waiting | Oversized | Undecipherable

  // ---------------------------------------------------------------------------------------
  // Nonces

  function Nonce(seqnum: nat): (n: Bytes)
    ensures |n| == NONCE_BYTES
  {
    LeBytes(seqnum, 8) + seq(16, _ => 0)
  }

  /** The first eight bytes spell the number, least significant byte first; the others are zero. */
  lemma {:induction false} NonceSpells(seqnum: nat, i: nat)
    requires i < 24
    ensures |Nonce(seqnum)| == 24
    ensures Nonce(seqnum)[i] as nat == if i < 8 then seqnum / Pow256(i) % 256 else 0
  {
    if i < 8 { LeDigit(seqnum, 8, i); }
  }

  function NextCounter(n: nat): nat {
    (n + 1) % COUNTER_LIMIT
  }

  /** The counter after `i` more messages. */
  function CounterAfter(n: nat, i: nat): nat {
    (n + i) % COUNTER_LIMIT
  }

  lemma NonceInjective(a: nat, b: nat)
    requires a < COUNTER_LIMIT && b < COUNTER_LIMIT && Nonce(a) == Nonce(b)
    ensures a == b
  {
    hide LeBytes, LeValue;
    assert Pow256(8) == COUNTER_LIMIT;
    LeRoundTrip(a, 8);
    LeRoundTrip(b, 8);
    assert Nonce(a)[..8] == LeBytes(a, 8) && Nonce(b)[..8] == LeBytes(b, 8);
  }

  ghost predicate NoncesDistinct(n: nat) {
    forall i, j | 0 <= i < j < n :: Nonce(CounterAfter(1, i)) != Nonce(CounterAfter(1, j))
  }

  /** Main result: the nonces of one direction are pairwise distinct exactly up to 2^64 messages. */
  lemma NoncesDistinctIff(n: nat)
    ensures NoncesDistinct(n) <==> n <= COUNTER_LIMIT
  {
    hide Nonce;
    if n <= COUNTER_LIMIT {
      forall i, j | 0 <= i < j < n ensures Nonce(CounterAfter(1, i)) != Nonce(CounterAfter(1, j)) {
        if Nonce(CounterAfter(1, i)) == Nonce(CounterAfter(1, j)) {
          NonceInjective(CounterAfter(1, i), CounterAfter(1, j));
          assert false;
        }
      }
    } else {
      assert CounterAfter(1, 0) == CounterAfter(1, COUNTER_LIMIT);
    }
  }

  // ---------------------------------------------------------------------------------------
  // Awaiting a frame

  datatype Polled = Polled(out: Decoded, codec: CodecState, buf: Bytes, left: seq<Bytes>)

  /** Decodes what is buffered, taking in one more chunk whenever the codec asks for more; stops
      asking when `chunks`, all that arrives before the wait ends, is used up. */
  function Poll(c: CodecState, buf: Bytes, chunks: seq<Bytes>): Polled
    decreases chunks
  {
    var s := DecodeStep(c, buf);
    if s.out.More? && chunks != [] then Poll(s.codec, s.rest + chunks[0], chunks[1..])
    else Polled(s.out, s.codec, s.rest, chunks)
  }

  /** One awaited frame is the first frame of everything that has arrived or is to arrive. */
  lemma {:induction false} PollTakesFirstFrame(c: CodecState, buf: Bytes, chunks: seq<Bytes>)
    requires !c.raw
    ensures var p := Poll(c, buf, chunks);
            && !p.codec.raw
            && p.codec.maxPacketLength == c.maxPacketLength
            && (p.out.More? ==> p.left == [])
            && Drain(c, buf + Concat(chunks))
               == match p.out
                  case Frame(f) =>
                    var d := Drain(p.codec, p.buf + Concat(p.left));
                    d.(frames := [f] + d.frames)
                  case More => Drained([], false, p.codec, p.buf)
                  case TooBig => Drained([], true, p.codec, p.buf + Concat(p.left))
    decreases chunks
  {
    hide DecodeStep;
    var s := DecodeStep(c, buf);
    DecodeMonotone(c, buf, Concat(chunks));
    if s.out.More? {
      if chunks == [] {
        assert buf + Concat(chunks) == buf;
      } else {
        assert s.rest + Concat(chunks) == (s.rest + chunks[0]) + Concat(chunks[1..]);
        PollTakesFirstFrame(s.codec, s.rest + chunks[0], chunks[1..]);
        SameStepSameDrain(c, buf + Concat(chunks), s.codec, s.rest + Concat(chunks));
      }
    }
  }

  /** A wait takes in no more chunks than its frame needs: with one less it would still be waiting. */
  lemma {:induction false} TakesNoMore(c: CodecState, buf: Bytes, chunks: seq<Bytes>) returns (taken: nat)
    ensures var p := Poll(c, buf, chunks);
            && taken <= |chunks| && p.left == chunks[taken..]
            && (taken > 0 ==> Poll(c, buf, chunks[..taken - 1]).out.More?)
    decreases chunks
  {
    var s := DecodeStep(c, buf);
    taken := 0;
    if s.out.More? && chunks != [] {
      var more := TakesNoMore(s.codec, s.rest + chunks[0], chunks[1..]);
      taken := more + 1;
      if more > 0 {
        assert chunks[..more][0] == chunks[0] && chunks[..more][1..] == chunks[1..][..more - 1];
      }
    }
  }

  lemma SameStepSameDrain(c: CodecState, a: Bytes, c': CodecState, a': Bytes)
    requires DecodeStep(c, a) == DecodeStep(c', a')
    ensures Drain(c, a) == Drain(c', a')
  {
  }

  /** Main result: a wait that expires mid-frame loses nothing. Awaiting with part of the chunks and
      then again with the rest yields what awaiting all of them yields, in any codec mode. */
  lemma {:induction false} ExpiredWaitLosesNothing(c: CodecState, buf: Bytes, early: seq<Bytes>, late: seq<Bytes>)
    ensures var p := Poll(c, buf, early);
            Poll(c, buf, early + late) == if p.out.More? then Poll(p.codec, p.buf, late)
                                          else p.(left := p.left + late)
    decreases early
  {
    var s := DecodeStep(c, buf);
    if s.out.More? && early != [] {
      assert (early + late)[0] == early[0] && (early + late)[1..] == early[1..] + late;
      ExpiredWaitLosesNothing(s.codec, s.rest + early[0], early[1..], late);
    } else if early == [] {
      assert early + late == late && [] + late == late;
      if s.out.More? {
        DecodeMonotoneAtRest(c, buf);
      }
    }
  }

  /** A codec that asked for more asks again. */
  lemma DecodeMonotoneAtRest(c: CodecState, buf: Bytes)
    requires DecodeStep(c, buf).out.More?
    ensures var s := DecodeStep(c, buf); DecodeStep(s.codec, s.rest) == s
  {
  }

  // ---------------------------------------------------------------------------------------
  // Messages

  datatype Reception = Reception(what: Received, endpoint: Endpoint, left: seq<Bytes>)

  function OpenFrame(cipher: Cipher, session: Option<Session>, frame: Bytes): (Received, Option<Session>)
  {
    match session
    case None => (Message(frame), None)
    case Some(s) =>
      var counter := NextCounter(s.received);
      match cipher.open(frame, Nonce(counter), s.key)
      case Some(m) => (Message(m), Some(s.(received := counter)))
      case None => (Undecipherable, Some(s.(received := counter)))
  }

  function Receive(cipher: Cipher, e: Endpoint, chunks: seq<Bytes>): Reception {
    var p := Poll(e.codec, e.buf, chunks);
    match p.out
    case More => Reception(Waiting, Endpoint(p.codec, p.buf, e.session), p.left)
    case TooBig => Reception(Oversized, Endpoint(p.codec, p.buf, e.session), p.left)
    case Frame(f) =>
      var (what, session) := OpenFrame(cipher, e.session, f);
      Reception(what, Endpoint(p.codec, p.buf, session), p.left)
  }

  datatype Receipt = Receipt(messages: seq<Bytes>, stopped: Option<Received>, endpoint: Endpoint, left: seq<Bytes>)

  /** Up to `n` messages, one `next` after the other, stopping at the first that brings none. */
  function ReceiveMany(cipher: Cipher, e: Endpoint, chunks: seq<Bytes>, n: nat): Receipt
    decreases n
  {
    if n == 0 then Receipt([], None, e, chunks)
    else
      var r := Receive(cipher, e, chunks);
      match r.what
      case Message(m) =>
        var rs := ReceiveMany(cipher, r.endpoint, r.left, n - 1);
        rs.(messages := [m] + rs.messages)
      case _ => Receipt([], Some(r.what), r.endpoint, r.left)
  }

  /** What a message looks like inside its frame, and the session after sealing it. */
  function SealMessage(cipher: Cipher, session: Option<Session>, msg: Bytes): (Bytes, Option<Session>)
  {
    match session
    case None => (msg, None)
    case Some(s) =>
      var counter := NextCounter(s.sent);
      (cipher.seal(msg, Nonce(counter), s.key), Some(s.(sent := counter)))
  }

  datatype Sent = Sent(ok: bool, endpoint: Endpoint, wire: Bytes)

  /** The counter advances before the codec can refuse the frame. */
  function Send(cipher: Cipher, e: Endpoint, msg: Bytes): Sent {
    var (frame, session) := SealMessage(cipher, e.session, msg);
    var e' := e.(session := session);
    if e.codec.raw then Sent(true, e', frame)
    else if |frame| <= MAX_PAYLOAD then Sent(true, e', EncodeFrame(frame))
    else Sent(false, e', [])
  }

  function SendMany(cipher: Cipher, e: Endpoint, msgs: seq<Bytes>): Sent
    decreases msgs
  {
    if msgs == [] then Sent(true, e, [])
    else
      var s := Send(cipher, e, msgs[0]);
      var rest := SendMany(cipher, s.endpoint, msgs[1..]);
      Sent(s.ok && rest.ok, rest.endpoint, s.wire + rest.wire)
  }

  // ---------------------------------------------------------------------------------------
  // One wait on any stream

  /** A wait that ends in the middle of a frame has less than its body in the buffer. */
  lemma {:induction false} RestsOnPartialFrame(c: CodecState, buf: Bytes, chunks: seq<Bytes>)
    requires !c.raw
    ensures var p := Poll(c, buf, chunks);
            p.out.More? ==>
              match p.codec.state
              case Head => p.buf == [] || |p.buf| < HeadLen(p.buf[0])
              case Data(need) => |p.buf| < need
    decreases chunks
  {
    var s := DecodeStep(c, buf);
    if s.out.More? && chunks != [] {
      RestsOnPartialFrame(s.codec, s.rest + chunks[0], chunks[1..]);
    }
  }

  /** The bytes begin with one whole frame, its head canonical or not. */
  ghost predicate BeginsWith(b: Bytes, frame: Bytes) {
    exists head :: IsHead(head, |frame|) && head + frame <= b
  }

  lemma HeadUnique(h: Bytes, n: nat, h': Bytes, n': nat, x: Bytes, y: Bytes)
    requires IsHead(h, n) && IsHead(h', n') && h + x == h' + y
    ensures h == h' && n == n' && x == y
  {
    assert h[0] == (h + x)[0] == (h' + y)[0] == h'[0];
    assert h == (h + x)[..|h|] && h' == (h' + y)[..|h|];
    assert x == (h + x)[|h|..] && y == (h' + y)[|h|..];
    assert h[..|h|] == h;
  }

  lemma CanonicalIsHead(n: nat)
    requires n <= MAX_PAYLOAD
    ensures IsHead(HeadBytes(n), n)
  {
    HeadSpellsLength(n);
    assert HeadBytes(n)[..|HeadBytes(n)|] == HeadBytes(n);
  }

  /** An encoded payload at the front of some bytes is a frame they begin with. */
  lemma EncodedBeginsWith(b: Bytes, frame: Bytes)
    requires |frame| <= MAX_PAYLOAD && EncodeFrame(frame) <= b
    ensures BeginsWith(b, frame)
  {
    CanonicalIsHead(|frame|);
    assert HeadBytes(|frame|) + frame == EncodeFrame(frame);
  }

  /** Main result: a fresh connection's first wait yields a frame exactly if the bytes that have arrived begin
      with it, however they are cut; and yields none exactly if they begin with no whole frame. */
  lemma FirstFrameIff(chunks: seq<Bytes>, frame: Bytes)
    ensures Poll(FRESH, [], chunks).out == Frame(frame) <==> BeginsWith(Concat(chunks), frame)
    ensures Poll(FRESH, [], chunks).out.Frame? || Poll(FRESH, [], chunks).out.More?
  {
    hide Poll, Concat, IsHead, HeadLen;
    var p := Poll(FRESH, [], chunks);
    var head := PollConserves(FRESH, [], [], chunks);
    NeverTooBig(FRESH, [], chunks);
    RestsOnPartialFrame(FRESH, [], chunks);
    assert [] + ([] + Concat(chunks)) == Concat(chunks);
    if p.out.Frame? {
      var f := p.out.data;
      assert head + f <= Concat(chunks);
      if h :| IsHead(h, |frame|) && h + frame <= Concat(chunks) {
        SameFirstFrame(head, f, h, frame, Concat(chunks));
      }
    } else if h :| IsHead(h, |frame|) && h + frame <= Concat(chunks) {
      WholeFrameIsThere(p.codec, head, p.buf, h, frame, Concat(chunks));
    }
  }

  lemma SameFirstFrame(h: Bytes, f: Bytes, h': Bytes, f': Bytes, b: Bytes)
    requires IsHead(h, |f|) && IsHead(h', |f'|) && h + f <= b && h' + f' <= b
    ensures f == f'
  {
    hide IsHead;
    var x, y := b[|h|..], b[|h'|..];
    assert b == h + x && b == h' + y;
    HeadUnique(h, |f|, h', |f'|, x, y);
    assert f == (h + f)[|h|..] && f' == (h' + f')[|h'|..];
  }

  lemma WholeFrameIsThere(c: CodecState, owed: Bytes, rest: Bytes, h: Bytes, f: Bytes, b: Bytes)
    requires IsOwed(c, owed) && b == owed + rest
    requires IsHead(h, |f|) && h + f <= b
    ensures match c.state
            case Head => rest != [] && |rest| >= HeadLen(rest[0])
            case Data(need) => |rest| >= need
  {
    var x := b[|h|..];
    assert b == h + x;
    if c.state.Data? {
      HeadUnique(owed, c.state.need, h, |f|, rest, x);
    } else {
      assert b == rest && h[0] == b[0];
    }
  }

  // ---------------------------------------------------------------------------------------
  // What a sealed stream lets through

  /** Main result, no faithfulness assumed: on a sealed stream what `next` makes of the first frame among the
      buffered and arriving bytes is its opening under the key and the number after the last. It is a
      message exactly if the frame opens, and undecipherable exactly if it does not; the number is
      used up either way, and only by a frame. */
  lemma SealedReceive(cipher: Cipher, e: Endpoint, chunks: seq<Bytes>)
    requires !e.codec.raw && e.session.Some?
    ensures var d := Drain(e.codec, e.buf + Concat(chunks));
            var r, s := Receive(cipher, e, chunks), e.session.value;
            var counter := (s.received + 1) % 0x1_0000_0000_0000_0000;
            if d.frames != [] then
              && (forall m :: r.what == Message(m)
                              <==> cipher.open(d.frames[0], Nonce(counter), s.key) == Some(m))
              && (r.what == Undecipherable <==> cipher.open(d.frames[0], Nonce(counter), s.key) == None)
              && r.endpoint.session == Some(Session(s.key, s.sent, counter))
              && Drain(r.endpoint.codec, r.endpoint.buf + Concat(r.left)) == d.(frames := d.frames[1..])
            else
              && r.what == (if d.failed then Oversized else Waiting)
              && r.endpoint.session == e.session
  {
    hide Poll, Drain, Concat, Nonce;
    PollTakesFirstFrame(e.codec, e.buf, chunks);
  }

  /** And on a stream without a session it is the frame itself. */
  lemma PlainReceive(cipher: Cipher, e: Endpoint, chunks: seq<Bytes>)
    requires !e.codec.raw && e.session.None?
    ensures var d := Drain(e.codec, e.buf + Concat(chunks));
            var r := Receive(cipher, e, chunks);
            && r.what == (if d.frames != [] then Message(d.frames[0]) else if d.failed then Oversized else Waiting)
            && r.endpoint.session == None
  {
    hide Poll, Drain, Concat;
    PollTakesFirstFrame(e.codec, e.buf, chunks);
  }

  /** The messages are the openings of the first frames, each under its own number. */
  ghost predicate OpensEach(cipher: Cipher, s: Session, frames: seq<Bytes>, messages: seq<Bytes>) {
    && |messages| <= |frames|
    && forall i | 0 <= i < |messages| ::
         cipher.open(frames[i], Nonce(CounterAfter(s.received, i + 1)), s.key) == Some(messages[i])
  }

  lemma OpensFirst(cipher: Cipher, s: Session, frames: seq<Bytes>, m: Bytes, rest: seq<Bytes>)
    requires frames != []
    requires cipher.open(frames[0], Nonce(CounterAfter(s.received, 1)), s.key) == Some(m)
    requires OpensEach(cipher, s.(received := CounterAfter(s.received, 1)), frames[1..], rest)
    ensures OpensEach(cipher, s, frames, [m] + rest)
  {
    hide Nonce, CounterAfter;
    var messages := [m] + rest;
    forall i | 0 <= i < |messages|
      ensures cipher.open(frames[i], Nonce(CounterAfter(s.received, i + 1)), s.key) == Some(messages[i])
    {
      if i > 0 {
        AfterNext(s.received, i);
        assert frames[1..][i - 1] == frames[i] && messages[i] == rest[i - 1];
      }
    }
  }

  /** Main result over calls: the messages a sealed stream delivers are the openings of its frames, in order, each
      under its own number; a frame that does not open is delivered as nothing, and the next one is
      opened with the next number. */
  lemma {:induction false} DeliveredIsOpened(cipher: Cipher, e: Endpoint, chunks: seq<Bytes>, n: nat)
    requires !e.codec.raw && e.session.Some? && e.session.value.received < COUNTER_LIMIT
    ensures var frames := Drain(e.codec, e.buf + Concat(chunks)).frames;
            var r, s := ReceiveMany(cipher, e, chunks, n), e.session.value;
            var k := |r.messages|;
            && OpensEach(cipher, s, frames, r.messages)
            && !r.endpoint.codec.raw && r.endpoint.session.Some?
            && var used := if r.stopped == Some(Undecipherable) then k + 1 else k;
               && used <= |frames|
               && (used > k ==> cipher.open(frames[k], Nonce(CounterAfter(s.received, used)), s.key) == None)
               && r.endpoint.session == Some(Session(s.key, s.sent, CounterAfter(s.received, used)))
               && if r.stopped == Some(Waiting) || r.stopped == Some(Oversized) then used == |frames|
                  else Drain(r.endpoint.codec, r.endpoint.buf + Concat(r.left)).frames == frames[used..]
    decreases n
  {
    hide Poll, Drain, Concat, Nonce, CounterAfter, NextCounter, Receive, OpensEach;
    var frames := Drain(e.codec, e.buf + Concat(chunks)).frames;
    var s := e.session.value;
    SameCounterIff(s.received, 0);
    NothingOpened(cipher, s, frames);
    if n == 0 {
      assert frames[0..] == frames;
    } else {
      SealedReceive(cipher, e, chunks);
      ReceiveKeepsMode(cipher, e, chunks);
      NextIsAfterOne(s.received);
      var one := Receive(cipher, e, chunks);
      if one.what.Message? {
        DeliveredIsOpened(cipher, one.endpoint, one.left, n - 1);
        var rest := ReceiveMany(cipher, one.endpoint, one.left, n - 1);
        var r := ReceiveMany(cipher, e, chunks, n);
        assert r == rest.(messages := [one.what.data] + rest.messages);
        OpensFirst(cipher, s, frames, one.what.data, rest.messages);
        OpenedCount(cipher, one.endpoint.session.value, frames[1..], rest.messages);
        var used := if rest.stopped == Some(Undecipherable) then |rest.messages| + 1 else |rest.messages|;
        AfterNext(s.received, used);
        assert frames[1..][used..] == frames[used + 1..];
      } else {
        assert frames[0..] == frames;
      }
    }
  }

  lemma NothingOpened(cipher: Cipher, s: Session, frames: seq<Bytes>)
    ensures OpensEach(cipher, s, frames, [])
  {
  }

  lemma OpenedCount(cipher: Cipher, s: Session, frames: seq<Bytes>, messages: seq<Bytes>)
    requires OpensEach(cipher, s, frames, messages)
    ensures |messages| <= |frames|
  {
  }

  lemma ReceiveKeepsMode(cipher: Cipher, e: Endpoint, chunks: seq<Bytes>)
    requires !e.codec.raw
    ensures !Receive(cipher, e, chunks).endpoint.codec.raw
  {
    hide Poll;
    PollTakesFirstFrame(e.codec, e.buf, chunks);
  }

  lemma NextIsAfterOne(n: nat)
    ensures (n + 1) % 0x1_0000_0000_0000_0000 == CounterAfter(n, 1) < COUNTER_LIMIT
  {
  }

  lemma AfterNext(n: nat, i: nat)
    ensures CounterAfter(CounterAfter(n, 1), i) == CounterAfter(n, i + 1)
  {
    CounterSteps(n, i);
  }

  /** What is sent raw, without a session, is on the wire as it is. */
  lemma {:induction false} RawSendsPass(cipher: Cipher, e: Endpoint, msgs: seq<Bytes>)
    requires e.codec.raw && e.session.None?
    ensures SendMany(cipher, e, msgs) == Sent(true, e, Concat(msgs))
    decreases msgs
  {
    if msgs != [] { RawSendsPass(cipher, e, msgs[1..]); }
  }

  // ---------------------------------------------------------------------------------------
  // Lockstep

  /** Message for message, the two ends of one direction use the same key and the same number. */
  ghost predicate InStep(sender: Option<Session>, receiver: Option<Session>) {
    match (sender, receiver)
    case (None, None) => true
    case (Some(s), Some(r)) => s.key == r.key && s.sent == r.received && s.sent < COUNTER_LIMIT
    case _ => false
  }

  /** A frame carried across a faithful channel in step opens to its message, and the ends stay in step. */
  lemma OpenSealed(cipher: Cipher, sender: Option<Session>, receiver: Option<Session>, msg: Bytes)
    requires Faithful(cipher) && InStep(sender, receiver)
    ensures var (frame, sender') := SealMessage(cipher, sender, msg);
            var (what, receiver') := OpenFrame(cipher, receiver, frame);
            what == Message(msg) && InStep(sender', receiver')
  {
  }

  /** The frames of a message sequence, in order. */
  ghost function SealAll(cipher: Cipher, session: Option<Session>, msgs: seq<Bytes>): seq<Bytes>
    decreases msgs
  {
    if msgs == [] then []
    else
      var (frame, session') := SealMessage(cipher, session, msgs[0]);
      [frame] + SealAll(cipher, session', msgs[1..])
  }

  lemma {:induction false} SendManyEncodesAll(cipher: Cipher, e: Endpoint, msgs: seq<Bytes>)
    requires !e.codec.raw
    requires Sendable(SealAll(cipher, e.session, msgs), MAX_PAYLOAD)
    ensures SendMany(cipher, e, msgs).ok
    ensures SendMany(cipher, e, msgs).wire == EncodeAll(SealAll(cipher, e.session, msgs))
    decreases msgs
  {
    hide EncodeFrame, SealMessage;
    if msgs != [] {
      var frames := SealAll(cipher, e.session, msgs);
      var s := Send(cipher, e, msgs[0]);
      assert frames[0] in frames;
      assert frames[1..] == SealAll(cipher, s.endpoint.session, msgs[1..]);
      assert Sendable(frames[1..], MAX_PAYLOAD);
      SendManyEncodesAll(cipher, s.endpoint, msgs[1..]);
    }
  }

  /** The frames that `inFlight` will complete at this end, and nothing more. */
  ghost predicate Expects(c: CodecState, buf: Bytes, inFlight: Bytes, frames: seq<Bytes>) {
    var d := Drain(c, buf + inFlight);
    !c.raw && d.frames == frames && !d.failed && d.rest == [] && d.codec.state == Head
  }

  /** Awaiting a frame from chunks that are the front of what is in flight. */
  lemma PollExpected(c: CodecState, buf: Bytes, chunks: seq<Bytes>, missing: Bytes, frames: seq<Bytes>)
    requires Expects(c, buf, Concat(chunks) + missing, frames)
    ensures var p := Poll(c, buf, chunks);
            match p.out
            case Frame(f) => frames != [] && f == frames[0]
                             && Expects(p.codec, p.buf, Concat(p.left) + missing, frames[1..])
            case More => p.left == [] && Expects(p.codec, p.buf, missing, frames)
                         && (missing == [] ==> frames == [])
            case TooBig => false
  {
    hide Poll, Drain, DecodeStep;
    var all := Concat(chunks);
    var p := Poll(c, buf, chunks);
    var d := Drain(c, buf + all);
    PollTakesFirstFrame(c, buf, chunks);
    DrainAppend(c, buf + all, missing);
    assert buf + (all + missing) == (buf + all) + missing;
    match p.out
    case Frame(f) =>
      DrainAppend(p.codec, p.buf + Concat(p.left), missing);
      assert p.buf + (Concat(p.left) + missing) == (p.buf + Concat(p.left)) + missing;
      var d' := Drain(p.codec, p.buf + Concat(p.left));
      var e := Drain(d'.codec, d'.rest + missing);
      assert ([f] + d'.frames) + e.frames == [f] + (d'.frames + e.frames);
      assert frames == [f] + (d'.frames + e.frames);
      assert frames[1..] == d'.frames + e.frames;
    case More =>
      var e := Drain(d.codec, d.rest + missing);
      assert [] + e.frames == e.frames;
      if missing == [] {
        assert buf + (all + missing) == buf + all;
      }
    case TooBig =>
      StuckAfterFailure(c, buf + all, missing);
      assert false;
  }

  /** Main result: on a faithful cipher with the ends in step, any number of `next` calls over any
      chunking of any part of the stream that has arrived yields a prefix of what was sent, in
      order and nothing else, leaves the ends in step for what remains, and waits only when bytes
      are missing; once everything has arrived, everything is received. */
  lemma {:induction false} Lockstep(cipher: Cipher, sender: Option<Session>, e: Endpoint,
                                         msgs: seq<Bytes>, chunks: seq<Bytes>, missing: Bytes, n: nat)
    requires Faithful(cipher) && InStep(sender, e.session)
    requires Expects(e.codec, e.buf, Concat(chunks) + missing, SealAll(cipher, sender, msgs))
    ensures var r := ReceiveMany(cipher, e, chunks, n);
            && r.messages <= msgs
            && (r.stopped.None? || r.stopped == Some(Waiting))
            && (missing == [] && n >= |msgs| ==> r.messages == msgs)
            && Expects(r.endpoint.codec, r.endpoint.buf, Concat(r.left) + missing,
                       SealAll(cipher, SessionAfter(cipher, sender, r.messages), msgs[|r.messages|..]))
            && InStep(SessionAfter(cipher, sender, r.messages), r.endpoint.session)
    decreases n
  {
    hide Expects, Poll, SealMessage, OpenFrame, Concat, InStep;
    var frames := SealAll(cipher, sender, msgs);
    var r := ReceiveMany(cipher, e, chunks, n);
    if n == 0 {
      assert msgs[0..] == msgs;
    } else {
      PollExpected(e.codec, e.buf, chunks, missing, frames);
      var p := Poll(e.codec, e.buf, chunks);
      if p.out.Frame? {
        var (frame, sender') := SealMessage(cipher, sender, msgs[0]);
        OpenSealed(cipher, sender, e.session, msgs[0]);
        assert frames[1..] == SealAll(cipher, sender', msgs[1..]);
        var one := Receive(cipher, e, chunks);
        Lockstep(cipher, sender', one.endpoint, msgs[1..], one.left, missing, n - 1);
        var rs := ReceiveMany(cipher, one.endpoint, one.left, n - 1);
        assert r == rs.(messages := [msgs[0]] + rs.messages);
        assert r.messages[0] == msgs[0] && r.messages[1..] == rs.messages;
        assert msgs == [msgs[0]] + msgs[1..];
        assert msgs[|r.messages|..] == msgs[1..][|rs.messages|..];
      } else {
        assert msgs[0..] == msgs;
        NothingLeftInFlight(missing);
      }
    }
  }

  lemma NothingLeftInFlight(missing: Bytes)
    ensures Concat([]) + missing == missing
  {
  }

  /** The sender's session once `msgs` have been sealed. */
  ghost function SessionAfter(cipher: Cipher, session: Option<Session>, msgs: seq<Bytes>): Option<Session>
    decreases msgs
  {
    if msgs == [] then session else SessionAfter(cipher, SealMessage(cipher, session, msgs[0]).1, msgs[1..])
  }

  /** The whole channel: what `SendMany` puts on the wire, cut anyhow, is what the other end receives. */
  lemma ChannelDelivers(cipher: Cipher, sender: Endpoint, e: Endpoint,
                             msgs: seq<Bytes>, chunks: seq<Bytes>, missing: Bytes, n: nat)
    requires Faithful(cipher) && InStep(sender.session, e.session)
    requires !sender.codec.raw && !e.codec.raw && e.codec.state == Head && e.buf == []
    requires Sendable(SealAll(cipher, sender.session, msgs), e.codec.maxPacketLength)
    requires Concat(chunks) + missing == SendMany(cipher, sender, msgs).wire
    ensures var r := ReceiveMany(cipher, e, chunks, n);
            && r.messages <= msgs
            && (r.stopped.None? || r.stopped == Some(Waiting))
            && (missing == [] && n >= |msgs| ==> r.messages == msgs)
            && InStep(SessionAfter(cipher, sender.session, r.messages), r.endpoint.session)
  {
    hide EncodeAll, Drain, Concat, SealAll, SendMany, ReceiveMany;
    var frames := SealAll(cipher, sender.session, msgs);
    SendManyEncodesAll(cipher, sender, msgs);
    assert [] + (Concat(chunks) + missing) == EncodeAll(frames) + [];
    DrainEncoded(e.codec, frames, []);
    DrainNothing(e.codec);
    assert frames + [] == frames;
    Lockstep(cipher, sender.session, e, msgs, chunks, missing, n);
  }

  /** Frame number `i` carries message `i` under nonce number `i` after the starting counter. */
  lemma {:induction false} FrameNonces(cipher: Cipher, session: Session, msgs: seq<Bytes>, i: nat)
    requires i < |msgs|
    ensures |SealAll(cipher, Some(session), msgs)| == |msgs|
    ensures SealAll(cipher, Some(session), msgs)[i]
         == cipher.seal(msgs[i], Nonce(CounterAfter(session.sent, i + 1)), session.key)
    decreases |msgs|
  {
    hide Nonce;
    var session' := session.(sent := NextCounter(session.sent));
    if |msgs| > 1 {
      FrameNonces(cipher, session', msgs[1..], if i == 0 then 0 else i - 1);
      if i > 0 { CounterSteps(session.sent, i); }
    }
  }

  lemma CounterSteps(n: nat, i: nat)
    ensures CounterAfter(NextCounter(n), i) == CounterAfter(n, i + 1)
  {
    var q := (n + 1) / COUNTER_LIMIT;
    assert n + 1 == q * COUNTER_LIMIT + NextCounter(n);
    AddMultiple(NextCounter(n) + i, q);
  }

  lemma AddMultiple(x: nat, q: nat)
    ensures (x + q * COUNTER_LIMIT) % COUNTER_LIMIT == x % COUNTER_LIMIT
  {
  }

  // ---------------------------------------------------------------------------------------
  // Refused sends

  /** The codec takes the sealed message: it writes it as it is, or its length fits a head. */
  predicate Takes(cipher: Cipher, e: Endpoint, msg: Bytes) {
    e.codec.raw || |SealMessage(cipher, e.session, msg).0| <= MAX_PAYLOAD
  }

  /** How many of the messages are refused. */
  function Refusals(cipher: Cipher, e: Endpoint, msgs: seq<Bytes>): nat
    decreases msgs
  {
    if msgs == [] then 0
    else (if Takes(cipher, e, msgs[0]) then 0 else 1) + Refusals(cipher, Send(cipher, e, msgs[0]).endpoint, msgs[1..])
  }

  /** The other end's session once it has opened whatever of the messages was written. */
  function OpenWritten(cipher: Cipher, e: Endpoint, receiver: Option<Session>, msgs: seq<Bytes>): Option<Session>
    decreases msgs
  {
    if msgs == [] then receiver
    else
      var s := Send(cipher, e, msgs[0]);
      var receiver' := if s.ok then OpenFrame(cipher, receiver, SealMessage(cipher, e.session, msgs[0]).0).1
                       else receiver;
      OpenWritten(cipher, s.endpoint, receiver', msgs[1..])
  }

  /** The sender is `lag` numbers ahead. */
  ghost predicate Ahead(sender: Option<Session>, receiver: Option<Session>, lag: nat) {
    match (sender, receiver)
    case (None, None) => true
    case (Some(s), Some(r)) =>
      s.key == r.key && r.received < COUNTER_LIMIT && s.sent == CounterAfter(r.received, lag)
    case _ => false
  }

  lemma CounterNext(n: nat, i: nat)
    ensures NextCounter(CounterAfter(n, i)) == CounterAfter(n, i + 1)
  {
    var q := (n + i) / COUNTER_LIMIT;
    assert n + i == q * COUNTER_LIMIT + CounterAfter(n, i);
    AddMultiple(CounterAfter(n, i) + 1, q);
  }

  lemma SameCounterIff(n: nat, lag: nat)
    requires n < COUNTER_LIMIT
    ensures CounterAfter(n, lag) == n <==> lag % COUNTER_LIMIT == 0
  {
    var q := lag / COUNTER_LIMIT;
    var l := lag % COUNTER_LIMIT;
    assert n + lag == (n + l) + q * COUNTER_LIMIT;
    AddMultiple(n + l, q);
    if n + l >= COUNTER_LIMIT {
      AddMultiple(n + l - COUNTER_LIMIT, 1);
    }
  }

  lemma {:induction false} EachRefusalCounts(cipher: Cipher, e: Endpoint, receiver: Option<Session>,
                                             msgs: seq<Bytes>, lag: nat)
    requires Ahead(e.session, receiver, lag)
    ensures Ahead(SendMany(cipher, e, msgs).endpoint.session, OpenWritten(cipher, e, receiver, msgs),
                  lag + Refusals(cipher, e, msgs))
    ensures SendMany(cipher, e, msgs).ok <==> Refusals(cipher, e, msgs) == 0
    decreases msgs
  {
    hide CounterAfter, NextCounter, Nonce, EncodeFrame;
    if msgs != [] {
      var s := Send(cipher, e, msgs[0]);
      var lag' := if s.ok then lag else lag + 1;
      var receiver' := if s.ok then OpenFrame(cipher, receiver, SealMessage(cipher, e.session, msgs[0]).0).1
                       else receiver;
      if e.session.Some? {
        var r := receiver.value.received;
        CounterNext(r, lag);
        CounterSteps(r, lag);
        CounterBound(r);
      }
      EachRefusalCounts(cipher, s.endpoint, receiver', msgs[1..], lag');
    }
  }

  lemma CounterBound(n: nat)
    ensures NextCounter(n) < COUNTER_LIMIT
  {
  }

  /** Main result on refused sends: a refused message writes nothing, yet its number is used up. After any
      messages, opened at the other end as far as they were written, the two ends of a sealed stream
      are in step exactly if the number of refused messages is a multiple of 2^64, so as good as
      never after a refusal. A stream that is not sealed stays in step. */
  lemma SendsKeepStepIff(cipher: Cipher, e: Endpoint, receiver: Option<Session>, msgs: seq<Bytes>)
    requires InStep(e.session, receiver)
    ensures InStep(SendMany(cipher, e, msgs).endpoint.session, OpenWritten(cipher, e, receiver, msgs))
        <==> e.session.None? || Refusals(cipher, e, msgs) % COUNTER_LIMIT == 0
    ensures SendMany(cipher, e, msgs).ok <==> Refusals(cipher, e, msgs) == 0
  {
    hide CounterAfter, SendMany, OpenWritten, Refusals;
    if e.session.Some? {
      SameCounterIff(receiver.value.received, 0);
    }
    EachRefusalCounts(cipher, e, receiver, msgs, 0);
    SealedStaysSealed(cipher, e, msgs);
    var receiver' := OpenWritten(cipher, e, receiver, msgs);
    if e.session.Some? {
      SameCounterIff(receiver'.value.received, Refusals(cipher, e, msgs));
    }
  }

  lemma {:induction false} SealedStaysSealed(cipher: Cipher, e: Endpoint, msgs: seq<Bytes>)
    ensures SendMany(cipher, e, msgs).endpoint.session.Some? <==> e.session.Some?
    decreases msgs
  {
    hide Nonce, EncodeFrame, NextCounter;
    if msgs != [] { SealedStaysSealed(cipher, Send(cipher, e, msgs[0]).endpoint, msgs[1..]); }
  }

  // ---------------------------------------------------------------------------------------
  // Handover to raw mode

  function GoRaw(e: Endpoint): Endpoint {
    Endpoint(e.codec.(raw := true), e.buf, None)
  }

  /** What a raw end passes on: what is buffered, then every chunk as it arrives. */
  lemma RawReceive(cipher: Cipher, e: Endpoint, chunks: seq<Bytes>)
    requires e.codec.raw && e.session.None?
    ensures var r := Receive(cipher, e, chunks);
            && r.endpoint == e.(buf := [])
            && match r.what
               case Message(data) => data != [] && e.buf + Concat(chunks) == data + Concat(r.left)
               case Waiting => r.left == [] && e.buf + Concat(chunks) == []
               case _ => false
    decreases chunks
  {
    if e.buf == [] && chunks != [] {
      RawReceive(cipher, e.(buf := chunks[0]), chunks[1..]);
      assert [] + chunks[0] == chunks[0];
    }
  }

  /** Every byte of a connection whose first wait ended with `e`, minus what that wait consumed. */
  lemma {:induction false} PollConserves(c: CodecState, owed: Bytes, buf: Bytes, chunks: seq<Bytes>)
      returns (head: Bytes)
    requires !c.raw && Settled(c) && IsOwed(c, owed)
    ensures var p := Poll(c, buf, chunks);
            match p.out
            case Frame(f) => p.codec.state == Head && IsHead(head, |f|)
                             && owed + (buf + Concat(chunks)) == head + f + (p.buf + Concat(p.left))
            case More => p.left == [] && IsOwed(p.codec, head)
                         && owed + (buf + Concat(chunks)) == head + p.buf
            case TooBig => true
    decreases chunks
  {
    hide DecodeStep, IsHead, IsOwed;
    head := StepConserves(c, owed, buf);
    var s := DecodeStep(c, buf);
    assert owed + (buf + Concat(chunks)) == (owed + buf) + Concat(chunks);
    if s.out.Frame? {
      assert (head + s.out.data + s.rest) + Concat(chunks) == head + s.out.data + (s.rest + Concat(chunks));
    } else if s.out.More? {
      if chunks == [] {
        assert (owed + buf) + Concat(chunks) == owed + buf;
      } else {
        var mid := head;
        head := PollConserves(s.codec, mid, s.rest + chunks[0], chunks[1..]);
        assert (mid + s.rest) + Concat(chunks) == mid + ((s.rest + chunks[0]) + Concat(chunks[1..]));
      }
    }
  }

  /** The first head in the bytes, if it is all there. */
  function CompleteHead(b: Bytes): Bytes {
    if b == [] || |b| < HeadLen(b[0]) then [] else b[..HeadLen(b[0])]
  }

  lemma OwedIsHead(c: CodecState, owed: Bytes, buf: Bytes)
    requires IsOwed(c, owed)
    requires c.state.Head? ==> buf == [] || |buf| < HeadLen(buf[0])
    ensures owed == CompleteHead(owed + buf)
  {
    if c.state.Head? {
      assert owed + buf == buf;
    } else {
      assert (owed + buf)[..|owed|] == owed && (owed + buf)[0] == owed[0];
    }
  }

  /** After the switch a stream, whatever it was before, sends bytes as they are and passes on those buffered and
      arriving as they are. */
  lemma RawAfterSwitch(cipher: Cipher, e: Endpoint, chunks: seq<Bytes>, msgs: seq<Bytes>)
    ensures var r := Receive(cipher, GoRaw(e), chunks);
            match r.what
            case Message(data) => data != [] && e.buf + Concat(chunks) == data + (r.endpoint.buf + Concat(r.left))
            case Waiting => r.left == [] && e.buf + Concat(chunks) == []
            case _ => false
    ensures SendMany(cipher, GoRaw(e), msgs) == Sent(true, GoRaw(e), Concat(msgs))
  {
    hide Receive, SendMany, Concat;
    RawReceive(cipher, GoRaw(e), chunks);
    RawSendsPass(cipher, GoRaw(e), msgs);
    assert [] + Concat(Receive(cipher, GoRaw(e), chunks).left) == Concat(Receive(cipher, GoRaw(e), chunks).left);
  }

  /** Main result: a fresh connection awaits its opening frame and is then switched to raw mode. From
      there on exactly the bytes behind the opening frame pass. If the wait expired first, what is
      lost is the head of the opening frame, if all of it had arrived, and nothing else. */
  lemma HandoverKeepsRemainder(cipher: Cipher, early: seq<Bytes>, late: seq<Bytes>) returns (consumed: Bytes)
    ensures var r := Receive(cipher, Endpoint(FRESH, [], None), early);
            && Concat(early + late) == consumed + (GoRaw(r.endpoint).buf + Concat(r.left + late))
            && match r.what
               case Message(m) => exists head :: IsHead(head, |m|) && consumed == head + m
               case Waiting => consumed == CompleteHead(Concat(early))
               case _ => false
  {
    hide IsHead, Poll, Concat, CompleteHead;
    var p := Poll(FRESH, [], early);
    var head := PollConserves(FRESH, [], [], early);
    NeverTooBig(FRESH, [], early);
    RestsOnPartialFrame(FRESH, [], early);
    ConcatAppend(early, late);
    ConcatAppend(p.left, late);
    assert [] + ([] + Concat(early)) == Concat(early);
    var rest := p.buf + Concat(p.left);
    if p.out.Frame? {
      consumed := head + p.out.data;
    } else {
      consumed := head;
      OwedIsHead(p.codec, head, p.buf);
      NoChunks();
      assert p.buf + [] == p.buf;
    }
    assert consumed + (p.buf + (Concat(p.left) + Concat(late))) == consumed + (rest + Concat(late));
    assert (consumed + rest) + Concat(late) == consumed + (rest + Concat(late));
  }

  lemma NoChunks()
    ensures Concat([]) == []
  {
  }

  /** Under the default limit no head is too big: four bytes cannot announce that much. */
  lemma {:induction false} NeverTooBig(c: CodecState, buf: Bytes, chunks: seq<Bytes>)
    requires !c.raw && c.maxPacketLength >= MAX_PAYLOAD
    ensures !Poll(c, buf, chunks).out.TooBig?
    decreases chunks
  {
    var s := DecodeStep(c, buf);
    if c.state.Head? && buf != [] && HeadLen(buf[0]) <= |buf| {
      var h := buf[..HeadLen(buf[0])];
      assert h[..|h|] == h;
      HeadBytesShortest(h, HeadNumber(h) / 4);
    }
    if s.out.More? && chunks != [] {
      NeverTooBig(s.codec, s.rest + chunks[0], chunks[1..]);
    }
  }

  // ---------------------------------------------------------------------------------------
  // The stream in place

  /** The two directions of a connection: chunks still to be delivered, bytes written so far. */
  class TcpStream {
    var inbound: seq<Bytes>
    var outbound: Bytes

    constructor (arriving: seq<Bytes>)
      ensures inbound == arriving && outbound == []
    {
      inbound, outbound := arriving, [];
    }
  }

  class FramedStream {
    const cipher: Cipher
    const tcp: TcpStream
    const codec: BytesCodec
    const readBuffer: ByteBuffer
    var session: Option<Session>

    ghost function Value(): Endpoint
      reads this, codec, readBuffer
    {
      Endpoint(codec.Value(), readBuffer.data, session)
    }

    constructor (cipher: Cipher, tcp: TcpStream)
      ensures this.cipher == cipher && this.tcp == tcp
      ensures fresh(codec) && fresh(readBuffer)
      ensures Value() == Endpoint(FRESH, [], None)
    {
      this.cipher, this.tcp := cipher, tcp;
      codec := new BytesCodec();
      readBuffer := new ByteBuffer();
      session := None;
    }

    method SetRaw()
      modifies this, codec
      ensures Value() == GoRaw(old(Value()))
    {
      codec.SetRaw();
      session := None;
    }

    method SetKey(key: Key)
      modifies this
      ensures Value() == old(Value()).(session := Some(Session(key, 0, 0)))
    {
      session := Some(Session(key, 0, 0));
    }

    method SendRaw(msg: Bytes) returns (ok: bool)
      modifies this, tcp
      ensures tcp.inbound == old(tcp.inbound)
      ensures var s := Send(cipher, old(Value()), msg);
              ok == s.ok && Value() == s.endpoint && tcp.outbound == old(tcp.outbound) + s.wire
    {
      var data := msg;
      if session.Some? {
        var counter := (session.value.sent + 1) % COUNTER_LIMIT;
        session := Some(session.value.(sent := counter));
        data := cipher.seal(msg, Nonce(counter), session.value.key);
      }
      ok := SendBytes(data);
    }

    /** Writes one frame as it is, around the session. */
    method SendBytes(bytes: Bytes) returns (ok: bool)
      modifies tcp
      ensures tcp.inbound == old(tcp.inbound)
      ensures ok == (codec.raw || |bytes| <= MAX_PAYLOAD)
      ensures tcp.outbound == if codec.raw then old(tcp.outbound) + bytes
                              else if ok then old(tcp.outbound) + EncodeFrame(bytes)
                              else old(tcp.outbound)
    {
      var buf := new ByteBuffer();
      ok := codec.Encode(bytes, buf);
      assert [] + bytes == bytes;
      tcp.outbound := tcp.outbound + buf.data;
    }

    /** The framed reader: takes in at most `patience` more chunks. */
    method NextFrame(patience: nat) returns (out: Decoded)
      requires patience <= |tcp.inbound|
      modifies codec, readBuffer, tcp
      ensures tcp.outbound == old(tcp.outbound)
      ensures var p := Poll(old(codec.Value()), old(readBuffer.data), old(tcp.inbound)[..patience]);
              && out == p.out && codec.Value() == p.codec && readBuffer.data == p.buf
              && tcp.inbound == p.left + old(tcp.inbound)[patience..]
    {
      hide DecodeStep;
      var left: nat := patience;
      ghost var arriving := tcp.inbound;
      while true
        invariant left <= patience
        invariant tcp.inbound == arriving[patience - left..]
        invariant tcp.outbound == old(tcp.outbound)
        invariant Poll(codec.Value(), readBuffer.data, arriving[patience - left..patience])
               == Poll(old(codec.Value()), old(readBuffer.data), arriving[..patience])
        decreases left
      {
        ghost var now := arriving[patience - left..patience];
        out := codec.Decode(readBuffer);
        if out != More || left == 0 {
          assert tcp.inbound == now + arriving[patience..];
          return;
        }
        assert now[0] == tcp.inbound[0] && now[1..] == arriving[patience - left + 1..patience];
        readBuffer.Put(tcp.inbound[0]);
        tcp.inbound := tcp.inbound[1..];
        left := left - 1;
      }
    }

    method Next(patience: nat) returns (what: Received)
      requires patience <= |tcp.inbound|
      modifies this, codec, readBuffer, tcp
      ensures tcp.outbound == old(tcp.outbound)
      ensures var r := Receive(cipher, old(Value()), old(tcp.inbound)[..patience]);
              && what == r.what && Value() == r.endpoint
              && tcp.inbound == r.left + old(tcp.inbound)[patience..]
    {
      var out := NextFrame(patience);
      match out {
        case More => what := Waiting;
        case TooBig => what := Oversized;
        case Frame(bytes) =>
          if session.Some? {
            var counter := (session.value.received + 1) % COUNTER_LIMIT;
            session := Some(session.value.(received := counter));
            match cipher.open(bytes, Nonce(counter), session.value.key) {
              case Some(plain) => what := Message(plain);
              case None => what := Undecipherable;
            }
          } else {
            what := Message(bytes);
          }
      }
    }

    /** `None` when the time is up, with whatever has arrived kept for the next call. */
    method NextTimeout(patience: nat) returns (res: Option<Received>)
      requires patience <= |tcp.inbound|
      modifies this, codec, readBuffer, tcp
      ensures tcp.outbound == old(tcp.outbound)
      ensures var r := Receive(cipher, old(Value()), old(tcp.inbound)[..patience]);
              && res == (if r.what == Waiting then None else Some(r.what))
              && Value() == r.endpoint
              && tcp.inbound == r.left + old(tcp.inbound)[patience..]
    {
      var what := Next(patience);
      res := if what == Waiting then None else Some(what);
    }
  }
}
