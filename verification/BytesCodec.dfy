/** The length-prefixed frame codec: a head of one to four little-endian bytes, whose two low
    bits give its own length, followed by that many bytes of payload.

    `DecodeStep` and `EncodeFrame` are the codec on values; class `BytesCodec` is the codec as the
    program has it, consuming a buffer in place. */
module Codec {
  import opened Octets

  /** `usize::MAX` on a 64-bit target. */
  const USIZE_MAX: nat := 0xFFFF_FFFF_FFFF_FFFF

  /** The longest payload `encode` accepts. */
  const MAX_PAYLOAD: nat := 0x3FFF_FFFF

  datatype DecodeState = Head | Data(need: nat)

  datatype CodecState = CodecState(state: DecodeState, raw: bool, maxPacketLength: nat)

  const FRESH := CodecState(Head, false, USIZE_MAX)

  datatype HeadResult = HeadShort | HeadTooBig | HeadOk(need: nat)

  datatype Decoded = Frame(data: Bytes) | More | TooBig

  datatype Step = Step(out: Decoded, codec: CodecState, rest: Bytes)

  // ---------------------------------------------------------------------------------------
  // The codec on values

  function HeadLen(b: Byte): (k: nat)
    ensures 1 <= k <= 4
  {
    b as nat % 4 + 1
  }

  /** The little-endian number a complete head spells, length tag included. */
  function HeadNumber(src: Bytes): nat
    requires src != [] && HeadLen(src[0]) <= |src|
  {
    LeValue(src[..HeadLen(src[0])])
  }

  function ReadHead(maxPacketLength: nat, src: Bytes): HeadResult {
    if src == [] || |src| < HeadLen(src[0]) then HeadShort
    else if HeadNumber(src) / 4 > maxPacketLength then HeadTooBig
    else HeadOk(HeadNumber(src) / 4)
  }

  function DecodeData(c: CodecState, need: nat, src: Bytes): Step {
    if |src| < need then Step(More, c.(state := Data(need)), src)
    else Step(Frame(src[..need]), c.(state := Head), src[need..])
  }

  function DecodeStep(c: CodecState, src: Bytes): (s: Step)
    ensures s.codec.raw == c.raw && s.codec.maxPacketLength == c.maxPacketLength && |s.rest| <= |src|
    ensures s.out.TooBig? ==> s.codec == c && s.rest == src
    ensures s.out.Frame? ==> |s.rest| < |src| || (c.state.Data? && s.codec.state.Head?)
  {
    if c.raw then
      if src != [] then Step(Frame(src), c, []) else Step(More, c, src)
    else
      match c.state
      case Data(need) => DecodeData(c, need, src)
      case Head =>
        match ReadHead(c.maxPacketLength, src)
        case HeadShort => Step(More, c, src)
        case HeadTooBig => Step(TooBig, c, src)
        case HeadOk(need) => DecodeData(c, need, src[HeadLen(src[0])..])
  }

  function HeadSize(n: nat): (k: nat)
    ensures 1 <= k <= 4
  {
    if n <= 0x3F then 1 else if n <= 0x3FFF then 2 else if n <= 0x3F_FFFF then 3 else 4
  }

  /** The length in the upper bits, the size of the head itself in the two low ones. */
  function HeadBytes(n: nat): (h: Bytes)
    requires n <= MAX_PAYLOAD
    ensures |h| == HeadSize(n)
  {
    LeBytes(n * 4 + HeadSize(n) - 1, HeadSize(n))
  }

  function EncodeFrame(data: Bytes): (r: Bytes)
    requires |data| <= MAX_PAYLOAD
    ensures |r| == HeadSize(|data|) + |data|
  {
    HeadBytes(|data|) + data
  }

  ghost predicate Sendable(payloads: seq<Bytes>, limit: nat) {
    forall p <- payloads :: |p| <= limit && |p| <= MAX_PAYLOAD
  }

  function EncodeAll(payloads: seq<Bytes>): Bytes
    requires forall p <- payloads :: |p| <= MAX_PAYLOAD
  {
    if payloads == [] then [] else EncodeFrame(payloads[0]) + EncodeAll(payloads[1..])
  }

  /** Decoding until the codec asks for more or fails. */
  datatype Drained = Drained(frames: seq<Bytes>, failed: bool, codec: CodecState, rest: Bytes)

  function Drain(c: CodecState, src: Bytes): Drained
    decreases |src|, if c.state.Data? then 1 else 0
  {
    var s := DecodeStep(c, src);
    match s.out
    case More => Drained([], false, s.codec, s.rest)
    case TooBig => Drained([], true, s.codec, s.rest)
    case Frame(f) =>
      var d := Drain(s.codec, s.rest);
      d.(frames := [f] + d.frames)
  }

  /** Draining after each chunk, as the bytes arrive. */
  function FeedAll(c: CodecState, src: Bytes, chunks: seq<Bytes>): Drained
    decreases chunks
  {
    var d := Drain(c, src);
    if chunks == [] then d
    else
      var e := FeedAll(d.codec, d.rest + chunks[0], chunks[1..]);
      e.(frames := d.frames + e.frames)
  }

  // ---------------------------------------------------------------------------------------
  // Round trip

  lemma Powers()
    ensures Pow256(1) == 0x100 && Pow256(2) == 0x1_0000
    ensures Pow256(3) == 0x100_0000 && Pow256(4) == 0x1_0000_0000
  {
  }

  /** A three-byte number written as a `u16` and a `u8`. */
  lemma ThreeBytes(h: nat)
    requires h < 0x100_0000
    ensures LeBytes(h % 0x1_0000, 2) + LeBytes(h / 0x1_0000 % 0x100, 1) == LeBytes(h, 3)
  {
    var c, low := h / 0x1_0000, h % 0x1_0000;
    assert h == 0x100 * (0x100 * c + low / 0x100) + low % 0x100;
    assert h % 0x100 == low % 0x100 && h / 0x100 == 0x100 * c + low / 0x100;
    assert h / 0x100 % 0x100 == low / 0x100 && h / 0x100 / 0x100 == c;
    assert LeBytes(low, 2) == [(low % 0x100) as Byte] + LeBytes(low / 0x100, 1);
    assert LeBytes(h, 3) == [(h % 0x100) as Byte] + LeBytes(h / 0x100, 2);
    assert LeBytes(h / 0x100, 2) == [(h / 0x100 % 0x100) as Byte] + LeBytes(c, 1);
  }

  lemma LowBits(x: nat)
    ensures x % 0x100 % 4 == x % 4
  {
    var q := x / 0x100;
    assert x == 4 * (64 * q) + x % 0x100;
  }

  lemma HeadSpellsLength(n: nat)
    requires n <= MAX_PAYLOAD
    ensures var h := HeadBytes(n);
            HeadLen(h[0]) == |h| && LeValue(h) / 4 == n
  {
    var k := HeadSize(n);
    var v := n * 4 + k - 1;
    Powers();
    assert v < Pow256(k);
    LeRoundTrip(v, k);
    LowBits(v);
    assert v / 4 == n && v % 4 == k - 1;
  }

  /** The head on the wire, byte by byte: one to four bytes by the length, spelling four times the length with the
      number of further head bytes added, least significant byte first. */
  lemma HeadOnTheWire(n: nat, i: nat)
    requires n <= 0x3FFF_FFFF && i < |HeadBytes(n)|
    ensures |HeadBytes(n)| == if n < 0x40 then 1 else if n < 0x4000 then 2 else if n < 0x40_0000 then 3 else 4
    ensures HeadBytes(n)[i] as nat == (n * 4 + |HeadBytes(n)| - 1) / Pow256(i) % 256
  {
    LeDigit(n * 4 + HeadSize(n) - 1, HeadSize(n), i);
  }

  /** A head as it is read: the two low bits of its first byte say how many follow, the other bits spell the length. */
  lemma HeadAsRead(h: Bytes, n: nat)
    requires h != []
    ensures IsHead(h, n) <==>
              && |h| == h[0] as nat % 4 + 1
              && n == (h[0] as nat
                       + (if |h| > 1 then h[1] as nat * 0x100 else 0)
                       + (if |h| > 2 then h[2] as nat * 0x1_0000 else 0)
                       + (if |h| > 3 then h[3] as nat * 0x100_0000 else 0)) / 4
  {
    if HeadLen(h[0]) == |h| { HeadByByte(h); }
  }

  /** The head number byte by byte, as `decode_head` accumulates it. */
  lemma HeadByByte(src: Bytes)
    requires src != [] && HeadLen(src[0]) <= |src|
    ensures HeadNumber(src)
         == src[0] as nat
            + (if HeadLen(src[0]) > 1 then src[1] as nat * 0x100 else 0)
            + (if HeadLen(src[0]) > 2 then src[2] as nat * 0x1_0000 else 0)
            + (if HeadLen(src[0]) > 3 then src[3] as nat * 0x100_0000 else 0)
  {
    var h := src[..HeadLen(src[0])];
    assert h[0] == src[0] && (|h| > 1 ==> h[1] == src[1]);
    assert (|h| > 2 ==> h[2] == src[2]) && (|h| > 3 ==> h[3] == src[3]);
    assert LeValue(h) == h[0] as nat + 0x100 * LeValue(h[1..]);
    if |h| > 1 {
      assert LeValue(h[1..]) == h[1] as nat + 0x100 * LeValue(h[2..]) by { assert h[1..][1..] == h[2..]; }
      if |h| > 2 {
        assert LeValue(h[2..]) == h[2] as nat + 0x100 * LeValue(h[3..]) by { assert h[2..][1..] == h[3..]; }
        if |h| > 3 {
          assert LeValue(h[3..]) == h[3] as nat + 0x100 * LeValue(h[4..]) by { assert h[3..][1..] == h[4..]; }
        }
      }
    }
  }

  lemma HeadRoundTrip(n: nat, maxPacketLength: nat, rest: Bytes)
    requires n <= MAX_PAYLOAD
    ensures HeadLen(HeadBytes(n)[0]) == |HeadBytes(n)|
    ensures ReadHead(maxPacketLength, HeadBytes(n) + rest)
         == if n > maxPacketLength then HeadTooBig else HeadOk(n)
  {
    hide HeadBytes, HeadLen;
    var h := HeadBytes(n);
    HeadSpellsLength(n);
    assert (h + rest)[0] == h[0] && (h + rest)[..|h|] == h;
  }

  lemma DecodeEncoded(c: CodecState, data: Bytes, rest: Bytes)
    requires !c.raw && c.state == Head && |data| <= MAX_PAYLOAD
    ensures DecodeStep(c, EncodeFrame(data) + rest)
         == if |data| <= c.maxPacketLength then Step(Frame(data), c, rest)
            else Step(TooBig, c, EncodeFrame(data) + rest)
  {
    hide HeadBytes, HeadLen, ReadHead;
    var h := HeadBytes(|data|);
    var src := EncodeFrame(data) + rest;
    assert src == h + (data + rest);
    HeadRoundTrip(|data|, c.maxPacketLength, data + rest);
    assert src[0] == h[0];
    assert src[|h|..] == data + rest;
  }

  /** A concatenation of encodings decodes to the payloads, up to the first one over the limit. */
  lemma {:induction false} DrainEncoded(c: CodecState, payloads: seq<Bytes>, rest: Bytes)
    requires !c.raw && c.state == Head
    requires Sendable(payloads, c.maxPacketLength)
    ensures var d := Drain(c, EncodeAll(payloads) + rest);
            var e := Drain(c, rest);
            d == e.(frames := payloads + e.frames)
    decreases |payloads|
  {
    hide Drain, DecodeStep, EncodeFrame;
    var e := Drain(c, rest);
    if payloads == [] {
      assert EncodeAll(payloads) + rest == rest;
      assert payloads + e.frames == e.frames;
    } else {
      var p, others := payloads[0], payloads[1..];
      assert EncodeAll(payloads) + rest == EncodeFrame(p) + (EncodeAll(others) + rest);
      assert p in payloads;
      DecodeEncoded(c, p, EncodeAll(others) + rest);
      DrainFrame(c, EncodeFrame(p) + (EncodeAll(others) + rest));
      DrainEncoded(c, others, rest);
      assert [p] + (others + e.frames) == payloads + e.frames;
    }
  }

  lemma DrainFrame(c: CodecState, src: Bytes)
    ensures var s := DecodeStep(c, src);
            s.out.Frame? ==> var d := Drain(s.codec, s.rest); Drain(c, src) == d.(frames := [s.out.data] + d.frames)
  {
    hide DecodeStep;
  }

  // ---------------------------------------------------------------------------------------
  // Fragmentation independence

  /** What one `decode` call does is not changed by bytes that arrive behind its input. */
  lemma DecodeMonotone(c: CodecState, a: Bytes, b: Bytes)
    requires !c.raw
    ensures var s := DecodeStep(c, a);
            DecodeStep(c, a + b) == if s.out.More? then DecodeStep(s.codec, s.rest + b)
                                else s.(rest := s.rest + b)
  {
    match c.state
    case Data(need) =>
      if need <= |a| {
        assert (a + b)[..need] == a[..need] && (a + b)[need..] == a[need..] + b;
      }
    case Head =>
      if a != [] && HeadLen(a[0]) <= |a| {
        var k := HeadLen(a[0]);
        assert (a + b)[0] == a[0] && (a + b)[k..] == a[k..] + b;
        assert (a + b)[..k] == a[..k];
        assert HeadNumber(a + b) == HeadNumber(a);
        var need := HeadNumber(a) / 4;
        if need <= |a[k..]| {
          assert (a[k..] + b)[..need] == a[k..][..need];
          assert (a[k..] + b)[need..] == a[k..][need..] + b;
        }
      }
  }

  lemma {:induction false} DrainAppend(c: CodecState, a: Bytes, b: Bytes)
    requires !c.raw
    ensures var d := Drain(c, a);
            var e := Drain(d.codec, d.rest + b);
            Drain(c, a + b) == e.(frames := d.frames + e.frames)
    ensures !Drain(c, a).codec.raw
    decreases |a|, if c.state.Data? then 1 else 0
  {
    hide DecodeStep;
    var s := DecodeStep(c, a);
    DecodeMonotone(c, a, b);
    var d := Drain(c, a);
    if s.out.Frame? {
      var d' := Drain(s.codec, s.rest);
      var e := Drain(d'.codec, d'.rest + b);
      DrainAppend(s.codec, s.rest, b);
      assert d == d'.(frames := [s.out.data] + d'.frames);
      assert [s.out.data] + (d'.frames + e.frames) == d.frames + e.frames;
    } else {
      var e := Drain(d.codec, d.rest + b);
      assert [] + e.frames == e.frames;
      assert Drain(c, a + b) == e;
    }
  }

  /** Main result: however a byte stream is cut into chunks, draining after each chunk yields the
      same frames, the same failure, the same final state and the same residual buffer. */
  lemma {:induction false} FragmentationIndependence(c: CodecState, src: Bytes, chunks: seq<Bytes>)
    requires !c.raw
    ensures FeedAll(c, src, chunks) == Drain(c, src + Concat(chunks))
    decreases chunks
  {
    var d := Drain(c, src);
    if chunks == [] {
      assert src + Concat(chunks) == src;
    } else {
      DrainAppend(c, src, Concat(chunks));
      assert d.rest + Concat(chunks) == (d.rest + chunks[0]) + Concat(chunks[1..]);
      FragmentationIndependence(d.codec, d.rest + chunks[0], chunks[1..]);
    }
  }

  /** Main result: any chunking of a sequence of encoded payloads within the limit decodes to
      exactly those payloads and leaves the codec idle with an empty buffer. */
  lemma FramesSurviveChunking(c: CodecState, payloads: seq<Bytes>, chunks: seq<Bytes>)
    requires !c.raw && c.state == Head
    requires Sendable(payloads, c.maxPacketLength)
    requires Concat(chunks) == EncodeAll(payloads)
    ensures FeedAll(c, [], chunks) == Drained(payloads, false, c, [])
  {
    hide Drain, EncodeAll, FeedAll, Concat;
    FragmentationIndependence(c, [], chunks);
    assert [] + Concat(chunks) == EncodeAll(payloads) + [];
    DrainEncoded(c, payloads, []);
    DrainNothing(c);
    assert payloads + [] == payloads;
  }

  lemma DrainNothing(c: CodecState)
    requires !c.raw && c.state == Head
    ensures Drain(c, []) == Drained([], false, c, [])
  {
  }

  /** Whatever part of the encoded stream has arrived, in whatever chunks, the frames so far are
      the first payloads, nothing has failed, and the rest of the stream completes them. */
  lemma ArrivedFramesArePrefix(c: CodecState, payloads: seq<Bytes>, chunks: seq<Bytes>, missing: Bytes)
    requires !c.raw && c.state == Head
    requires Sendable(payloads, c.maxPacketLength)
    requires Concat(chunks) + missing == EncodeAll(payloads)
    ensures var d := FeedAll(c, [], chunks);
            && d.frames <= payloads && !d.failed
            && Drain(d.codec, d.rest + missing) == Drained(payloads[|d.frames|..], false, c, [])
  {
    hide Drain, DecodeStep, EncodeAll, FeedAll, Concat;
    FragmentationIndependence(c, [], chunks);
    assert [] + Concat(chunks) == Concat(chunks);
    DrainAppend(c, Concat(chunks), missing);
    assert EncodeAll(payloads) + [] == EncodeAll(payloads);
    DrainEncoded(c, payloads, []);
    DrainNothing(c);
    assert payloads + [] == payloads;
    var d := FeedAll(c, [], chunks);
    var e := Drain(d.codec, d.rest + missing);
    assert d.frames + e.frames == payloads;
    if d.failed {
      StuckAfterFailure(c, Concat(chunks), missing);
      assert false;
    }
  }

  /** An oversized head is never consumed, so the failure repeats whatever arrives behind it. */
  lemma {:induction false} StuckAfterFailure(c: CodecState, a: Bytes, b: Bytes)
    requires !c.raw && Drain(c, a).failed
    ensures var d := Drain(c, a);
            Drain(d.codec, d.rest + b) == Drained([], true, d.codec, d.rest + b)
    decreases |a|, if c.state.Data? then 1 else 0
  {
    var s := DecodeStep(c, a);
    if s.out.Frame? {
      StuckAfterFailure(s.codec, s.rest, b);
    } else {
      DecodeMonotone(c, a, b);
    }
  }

  // ---------------------------------------------------------------------------------------
  // Arbitrary input

  /** The states `decode` leaves behind: a pending body is never empty, and fits the head. */
  ghost predicate Settled(c: CodecState) {
    c.state.Data? ==> 1 <= c.state.need <= MAX_PAYLOAD
  }

  /** `h` is one complete head announcing `n` bytes, canonical or not. */
  ghost predicate IsHead(h: Bytes, n: nat) {
    h != [] && HeadLen(h[0]) == |h| && HeadNumber(h) / 4 == n
  }

  /** The canonical head is the shortest one. */
  lemma HeadBytesShortest(h: Bytes, n: nat)
    requires IsHead(h, n)
    ensures n <= MAX_PAYLOAD && 1 <= HeadSize(n) <= |h|
  {
    LeValueBound(h);
    assert h[..|h|] == h;
    Powers();
  }

  /** The bytes a settled codec has consumed but not yet turned into a frame. */
  ghost predicate IsOwed(c: CodecState, owed: Bytes) {
    match c.state
    case Head => owed == []
    case Data(need) => IsHead(owed, need)
  }

  ghost predicate AreHeads(heads: seq<Bytes>, frames: seq<Bytes>) {
    && |heads| == |frames|
    && forall i | 0 <= i < |heads| :: IsHead(heads[i], |frames[i]|)
  }

  ghost function Alternation(heads: seq<Bytes>, frames: seq<Bytes>): Bytes
    requires |heads| == |frames|
  {
    if heads == [] then [] else heads[0] + frames[0] + Alternation(heads[1..], frames[1..])
  }

  /** One `decode` call on arbitrary input: the head it consumes, now or earlier, and what
      it makes of it. */
  lemma StepConserves(c: CodecState, owed: Bytes, src: Bytes) returns (head: Bytes)
    requires !c.raw && Settled(c) && IsOwed(c, owed)
    ensures var s := DecodeStep(c, src);
            match s.out
            case Frame(f) =>
              && s.codec == c.(state := Head)
              && IsHead(head, |f|) && owed + src == head + f + s.rest
            case More => Settled(s.codec) && IsOwed(s.codec, head) && owed + src == head + s.rest
            case TooBig => head == owed
  {
    head := owed;
    var s := DecodeStep(c, src);
    if c.state.Head? && (s.out.Frame? || s.codec.state.Data?) {
      head := src[..HeadLen(src[0])];
      assert head[..|head|] == head && src == head + src[|head|..];
      HeadBytesShortest(head, HeadNumber(head) / 4);
      assert s.out.Frame? ==> src[|head|..] == s.out.data + s.rest;
    }
  }

  /** Main result, for any bytes at all: what has been consumed is exactly complete heads and the
      bodies they announce in alternation, plus the head of the frame in progress. */
  lemma {:induction false} DrainConserves(c: CodecState, owed: Bytes, src: Bytes)
      returns (heads: seq<Bytes>, owed': Bytes)
    requires !c.raw && Settled(c) && IsOwed(c, owed)
    ensures var d := Drain(c, src);
            && Settled(d.codec) && IsOwed(d.codec, owed')
            && AreHeads(heads, d.frames)
            && owed + src == Alternation(heads, d.frames) + owed' + d.rest
    decreases |src|, if c.state.Data? then 1 else 0
  {
    hide DecodeStep, IsHead, Alternation, AreHeads;
    var head := StepConserves(c, owed, src);
    var s := DecodeStep(c, src);
    var d := Drain(c, src);
    if s.out.Frame? {
      var f := s.out.data;
      var hs, o := DrainConserves(s.codec, [], s.rest);
      var e := Drain(s.codec, s.rest);
      heads, owed' := [head] + hs, o;
      AlternationCons(head, f, hs, e.frames);
      Regroup(head + f, s.rest, Alternation(hs, e.frames), o, e.rest);
    } else {
      heads, owed' := [], head;
      AlternationNil(head, d.rest);
    }
  }

  lemma Regroup(front: Bytes, back: Bytes, x: Bytes, y: Bytes, z: Bytes)
    requires [] + back == x + y + z
    ensures front + back == (front + x) + y + z
  {
    assert back == x + y + z;
  }

  lemma AlternationNil(owed: Bytes, rest: Bytes)
    ensures AreHeads([], []) && Alternation([], []) + owed + rest == owed + rest
  {
  }

  lemma AlternationCons(head: Bytes, f: Bytes, heads: seq<Bytes>, frames: seq<Bytes>)
    requires IsHead(head, |f|) && AreHeads(heads, frames)
    ensures AreHeads([head] + heads, [f] + frames)
    ensures Alternation([head] + heads, [f] + frames) == head + f + Alternation(heads, frames)
  {
    assert ([head] + heads)[1..] == heads && ([f] + frames)[1..] == frames;
  }

  /** Every frame costs its sender at least one byte, and never fewer than its canonical
      encoding takes: decoding and encoding again cannot lengthen a stream. */
  lemma {:induction false} ReencodingNeverLonger(heads: seq<Bytes>, frames: seq<Bytes>)
    requires AreHeads(heads, frames)
    ensures forall f <- frames :: |f| <= MAX_PAYLOAD
    ensures |frames| <= |EncodeAll(frames)| <= |Alternation(heads, frames)|
  {
    hide IsHead;
    if frames != [] {
      HeadBytesShortest(heads[0], |frames[0]|);
      ReencodingNeverLonger(heads[1..], frames[1..]);
      assert frames == [frames[0]] + frames[1..];
    }
  }

  /** Raw mode passes every byte through, whatever the state the switch found the codec in. */
  lemma DrainRaw(c: CodecState, src: Bytes)
    requires c.raw
    ensures Drain(c, src) == Drained(if src == [] then [] else [src], false, c, [])
  {
    if src != [] {
      assert Drain(c, []) == Drained([], false, c, []);
    }
  }

  // ---------------------------------------------------------------------------------------
  // The codec in place

  /** A growable buffer consumed from the front. */
  class ByteBuffer {
    var data: Bytes

    constructor ()
      ensures data == []
    {
      data := [];
    }

    method Advance(n: nat)
      requires n <= |data|
      modifies this
      ensures data == old(data)[n..]
    {
      data := data[n..];
    }

    method SplitTo(n: nat) returns (front: Bytes)
      requires n <= |data|
      modifies this
      ensures front == old(data)[..n] && data == old(data)[n..]
    {
      front := data[..n];
      data := data[n..];
    }

    /** `put_u8`, `put_u16_le` and `put_u32_le`, for a width of 1, 2 and 4. */
    method PutLe(n: nat, width: nat)
      requires n < Pow256(width)
      modifies this
      ensures data == old(data) + LeBytes(n, width)
    {
      data := data + LeBytes(n, width);
    }

    method Put(more: Bytes)
      modifies this
      ensures data == old(data) + more
    {
      data := data + more;
    }
  }

  class BytesCodec {
    var state: DecodeState
    var raw: bool
    var maxPacketLength: nat

    ghost function Value(): CodecState
      reads this
    {
      CodecState(state, raw, maxPacketLength)
    }

    constructor ()
      ensures Value() == FRESH
    {
      state, raw, maxPacketLength := Head, false, USIZE_MAX;
    }

    method SetRaw()
      modifies this
      ensures Value() == old(Value()).(raw := true)
    {
      raw := true;
    }

    method SetMaxPacketLength(n: nat)
      modifies this
      ensures Value() == old(Value()).(maxPacketLength := n)
    {
      maxPacketLength := n;
    }

    method DecodeHead(src: ByteBuffer) returns (r: HeadResult)
      modifies src
      ensures r == ReadHead(maxPacketLength, old(src.data))
      ensures src.data == if r.HeadOk? then old(src.data)[HeadLen(old(src.data)[0])..] else old(src.data)
    {
      if |src.data| == 0 {
        return HeadShort;
      }
      var headLen := src.data[0] as nat % 4 + 1;
      if |src.data| < headLen {
        return HeadShort;
      }
      var n := src.data[0] as nat;
      HeadByByte(src.data);
      if headLen > 1 {
        n := n + src.data[1] as nat * 0x100;
      }
      if headLen > 2 {
        n := n + src.data[2] as nat * 0x1_0000;
      }
      if headLen > 3 {
        n := n + src.data[3] as nat * 0x100_0000;
      }
      n := n / 4;
      if n > maxPacketLength {
        return HeadTooBig;
      }
      src.Advance(headLen);
      return HeadOk(n);
    }

    method Decode(src: ByteBuffer) returns (out: Decoded)
      modifies this, src
      ensures Step(out, Value(), src.data) == DecodeStep(old(Value()), old(src.data))
    {
      if raw {
        if |src.data| != 0 {
          var all := src.SplitTo(|src.data|);
          return Frame(all);
        } else {
          return More;
        }
      }
      var n: nat;
      match state {
        case Head =>
          var r := DecodeHead(src);
          match r {
            case HeadShort => return More;
            case HeadTooBig => return TooBig;
            case HeadOk(need) =>
              state := Data(need);
              n := need;
          }
        case Data(need) => n := need;
      }
      if |src.data| < n {
        return More;
      }
      var data := src.SplitTo(n);
      state := Head;
      return Frame(data);
    }

    static method EncodeHead(n: nat, buf: ByteBuffer)
      requires n <= MAX_PAYLOAD
      modifies buf
      ensures buf.data == old(buf.data) + HeadBytes(n)
    {
      hide LeBytes, Pow256;
      Powers();
      if n <= 0x3F {
        buf.PutLe(n * 4 % 0x100, 1);
      } else if n <= 0x3FFF {
        buf.PutLe(n * 4 % 0x1_0000 + 1, 2);
      } else if n <= 0x3F_FFFF {
        var h := n * 4 % 0x1_0000_0000 + 2;
        buf.PutLe(h % 0x1_0000, 2);
        buf.PutLe(h / 0x1_0000 % 0x100, 1);
        ThreeBytes(h);
      } else {
        buf.PutLe(n * 4 % 0x1_0000_0000 + 3, 4);
      }
    }

    /** Appends one frame, or in raw mode the bytes as they are; refuses an oversized payload
        without touching the buffer. */
    method Encode(data: Bytes, buf: ByteBuffer) returns (ok: bool)
      modifies buf
      ensures ok == (raw || |data| <= MAX_PAYLOAD)
      ensures buf.data == if raw then old(buf.data) + data
                          else if ok then old(buf.data) + EncodeFrame(data)
                          else old(buf.data)
    {
      if raw {
        buf.Put(data);
        return true;
      }
      if |data| > 0x3FFF_FFFF {
        return false;
      }
      EncodeHead(|data|, buf);
      buf.Put(data);
      return true;
    }
  }
}
