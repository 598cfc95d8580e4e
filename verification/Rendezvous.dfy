/** The rendezvous server: peers register their address over UDP; a client asks over TCP for a peer and
    its connection is saved; the peer's relay response is passed to the saved client, and the next
    two relay connections are joined, while UDP goes on being served.

    `React` is the server's reaction to one event on values; class `RendezvousServer` runs the nested
    loops over a list of events. Where the loops are decides which events they take: `Phase`. */
module Rendezvous {
  import opened Octets
  import opened Codec
  import opened Channel
  import opened Relay

  datatype Addr = Addr(host: string, port: nat)

  /** The messages the server tells apart. */
  datatype Union = RegisterPeer(id: string) | RegisterPk | PunchHoleRequest(id: string) | RelayResponse | Unhandled

  type Parser = Bytes -> Option<Union>

  datatype Output =
    | RegisterPeerResponseTo(addr: Addr)
    | RegisterPkOkTo(addr: Addr)
    | RequestRelayTo(addr: Addr, relayServer: string)
    | RelayResponseTo(key: nat, relayServer: string)

  datatype Event =
    | Datagram(bytes: Bytes, addr: Addr)
    | Accepted(conn: Conn)
    | RelayAccepted(accepted: Option<Conn>)
    | Forward(turn: Turn)

  datatype Phase = Idle | AwaitFirst | AwaitSecond(stream: Side) | Relaying(relay: RelayState)

  /** `saved` is the key of the saved requester's connection. */
  datatype State = State(idMap: map<string, Addr>, saved: Option<nat>, phase: Phase, outputs: seq<Output>)

  const START := State(map[], None, Idle, [])

  // ---------------------------------------------------------------------------------------
  // Reactions

  function StepUdp(parse: Parser, s: State, bytes: Bytes, addr: Addr): State {
    match parse(bytes)
    case Some(RegisterPeer(id)) =>
      s.(idMap := s.idMap[id := addr], outputs := s.outputs + [RegisterPeerResponseTo(addr)])
    case Some(RegisterPk) => s.(outputs := s.outputs + [RegisterPkOkTo(addr)])
    case _ => s
  }

  /** The first message of a connection, if one arrives in time and parses. */
  function FirstMessage(parse: Parser, conn: Conn): Option<Union> {
    var p := Poll(FRESH, [], conn.early);
    if p.out.Frame? then parse(p.out.data) else None
  }

  function StepAccept(parse: Parser, relayServer: string, s: State, conn: Conn): State {
    match FirstMessage(parse, conn)
    case Some(PunchHoleRequest(id)) =>
      if id in s.idMap then
        s.(saved := Some(conn.key), outputs := s.outputs + [RequestRelayTo(s.idMap[id], relayServer)])
      else s
    case Some(RelayResponse) =>
      if s.saved.Some? then
        s.(saved := None, phase := AwaitFirst, outputs := s.outputs + [RelayResponseTo(s.saved.value, relayServer)])
      else s
    case _ => s
  }

  /** The connection's first message, by its bytes: what has arrived in time begins with a frame that parses to it. */
  ghost predicate Says(parse: Parser, conn: Conn, u: Union) {
    exists m :: BeginsWith(Concat(conn.early), m) && parse(m) == Some(u)
  }

  lemma FirstMessageIff(parse: Parser, conn: Conn, u: Union)
    ensures FirstMessage(parse, conn) == Some(u) <==> Says(parse, conn, u)
  {
    hide Poll, Concat, BeginsWith;
    var p := Poll(FRESH, [], conn.early);
    if p.out.Frame? { FirstFrameIff(conn.early, p.out.data); }
    if m :| BeginsWith(Concat(conn.early), m) && parse(m) == Some(u) { FirstFrameIff(conn.early, m); }
  }

  /** An encoded message that has arrived in time is the first message, whatever follows it. */
  lemma EncodedIsFirstMessage(parse: Parser, conn: Conn, m: Bytes)
    requires |m| <= MAX_PAYLOAD && EncodeFrame(m) <= Concat(conn.early)
    ensures FirstMessage(parse, conn) == parse(m)
  {
    hide Poll, Concat, BeginsWith, EncodeFrame;
    EncodedBeginsWith(Concat(conn.early), m);
    FirstFrameIff(conn.early, m);
  }

  /** What an event finds the server waiting for; any other event stays pending. */
  predicate Enabled(s: State, e: Event) {
    match e
    case Datagram(_, _) => s.phase.Idle? || s.phase.Relaying?
    case Accepted(_) => s.phase.Idle?
    case RelayAccepted(_) => s.phase.AwaitFirst? || s.phase.AwaitSecond?
    case Forward(_) => s.phase.Relaying?
  }

  function React(parse: Parser, relayServer: string, s: State, e: Event): State
    requires Enabled(s, e)
  {
    match e
    case Datagram(bytes, addr) => StepUdp(parse, s, bytes, addr)
    case Accepted(conn) => StepAccept(parse, relayServer, s, conn)
    case RelayAccepted(None) => s.(phase := Idle)
    case RelayAccepted(Some(conn)) =>
      if s.phase.AwaitFirst? then s.(phase := AwaitSecond(Opened(conn)))
      else s.(phase := Relaying(Start(s.phase.stream, Opened(conn))))
    case Forward(turn) =>
      var r := RelayTurn(s.phase.relay, turn);
      s.(phase := if r.ended.Some? then Idle else Relaying(r))
  }

  /** Every event of a run is one the server is waiting for. */
  predicate IsRun(parse: Parser, relayServer: string, events: seq<Event>)
    decreases |events|, 0
  {
    events == [] ||
    var front := events[..|events| - 1];
    IsRun(parse, relayServer, front) && Enabled(Run(parse, relayServer, front), events[|events| - 1])
  }

  function Run(parse: Parser, relayServer: string, events: seq<Event>): State
    requires IsRun(parse, relayServer, events)
    decreases |events|, 1
  {
    if events == [] then START
    else React(parse, relayServer, Run(parse, relayServer, events[..|events| - 1]), events[|events| - 1])
  }

  lemma {:induction false} FrontIsRun(parse: Parser, relayServer: string, events: seq<Event>, n: nat)
    requires IsRun(parse, relayServer, events) && n <= |events|
    ensures IsRun(parse, relayServer, events[..n])
    decreases |events|
  {
    if n == |events| {
      assert events[..n] == events;
    } else {
      var front := events[..|events| - 1];
      FrontIsRun(parse, relayServer, front, n);
      assert front[..n] == events[..n];
    }
  }

  // ---------------------------------------------------------------------------------------
  // The id map as history

  predicate Registers(parse: Parser, e: Event, id: string) {
    e.Datagram? && parse(e.bytes) == Some(RegisterPeer(id))
  }

  /** Event `i` is the latest registration of `id`. */
  ghost predicate LatestRegistration(parse: Parser, events: seq<Event>, id: string, i: nat) {
    && i < |events| && Registers(parse, events[i], id)
    && forall k | i < k < |events| :: !Registers(parse, events[k], id)
  }

  /** Main result: in every reachable state, relaying or not, an id is known exactly if it has been registered,
      and its address is that of the latest registration. */
  lemma {:induction false} IdMapIsHistory(parse: Parser, relayServer: string, events: seq<Event>, id: string)
    requires IsRun(parse, relayServer, events)
    ensures var m := Run(parse, relayServer, events).idMap;
            && (id in m <==> exists i :: LatestRegistration(parse, events, id, i))
            && (forall i: nat | LatestRegistration(parse, events, id, i) :: id in m && m[id] == events[i].addr)
    decreases |events|
  {
    if events != [] {
      var n := |events| - 1;
      var front := events[..n];
      IdMapIsHistory(parse, relayServer, front, id);
      IdMapStep(parse, relayServer, Run(parse, relayServer, front), events[n], id);
      if Registers(parse, events[n], id) {
        assert LatestRegistration(parse, events, id, n);
        forall i: nat | LatestRegistration(parse, events, id, i) ensures i == n {
        }
      } else {
        forall i: nat ensures LatestRegistration(parse, events, id, i) <==> LatestRegistration(parse, front, id, i) {
          LatestOfFront(parse, events, id, i);
        }
      }
    }
  }

  lemma LatestOfFront(parse: Parser, events: seq<Event>, id: string, i: nat)
    requires events != [] && !Registers(parse, events[|events| - 1], id)
    ensures LatestRegistration(parse, events, id, i) <==> LatestRegistration(parse, events[..|events| - 1], id, i)
  {
    var front := events[..|events| - 1];
    assert forall k | 0 <= k < |front| :: front[k] == events[k];
    if LatestRegistration(parse, front, id, i) {
      forall k | i < k < |events| ensures !Registers(parse, events[k], id) {
        if k < |front| { assert front[k] == events[k]; }
      }
    }
    if LatestRegistration(parse, events, id, i) {
      assert i != |events| - 1;
    }
  }

  lemma IdMapStep(parse: Parser, relayServer: string, s: State, e: Event, id: string)
    requires Enabled(s, e)
    ensures var m := React(parse, relayServer, s, e).idMap;
            if Registers(parse, e, id) then id in m && m[id] == e.addr
            else (id in m <==> id in s.idMap) && (id in m ==> m[id] == s.idMap[id])
  {
    hide RelayTurn, Opened, FirstMessage;
  }

  /** Each request for a relay goes to the address of the target's latest registration. */
  lemma RequestGoesToLatest(parse: Parser, relayServer: string, events: seq<Event>, id: string, i: nat)
    requires events != [] && IsRun(parse, relayServer, events)
    requires var e := events[|events| - 1]; e.Accepted? && FirstMessage(parse, e.conn) == Some(PunchHoleRequest(id))
    requires LatestRegistration(parse, events[..|events| - 1], id, i)
    ensures Run(parse, relayServer, events).outputs
         == Run(parse, relayServer, events[..|events| - 1]).outputs + [RequestRelayTo(events[i].addr, relayServer)]
  {
    IdMapIsHistory(parse, relayServer, events[..|events| - 1], id);
  }

  // ---------------------------------------------------------------------------------------
  // The one-slot requester

  /** The requester event `i` saves: a connection whose punch request names an id registered by then. */
  ghost function SavesAt(parse: Parser, relayServer: string, events: seq<Event>, i: nat): Option<nat>
    requires IsRun(parse, relayServer, events) && i < |events|
  {
    FrontIsRun(parse, relayServer, events, i);
    var e := events[i];
    if !e.Accepted? then None
    else
      match FirstMessage(parse, e.conn)
      case Some(PunchHoleRequest(id)) =>
        if exists k :: LatestRegistration(parse, events[..i], id, k) then Some(e.conn.key) else None
      case _ => None
  }

  /** The requester a relay response is passed to in reaction to event `i`. */
  ghost function AnswersAt(parse: Parser, relayServer: string, events: seq<Event>, i: nat): Option<nat>
    requires IsRun(parse, relayServer, events) && i < |events|
  {
    FrontIsRun(parse, relayServer, events, i);
    FrontIsRun(parse, relayServer, events, i + 1);
    assert events[..i + 1][..i] == events[..i];
    var before := Run(parse, relayServer, events[..i]);
    var after := Run(parse, relayServer, events[..i + 1]);
    if |after.outputs| == |before.outputs| + 1 && after.outputs[|before.outputs|].RelayResponseTo?
    then Some(after.outputs[|before.outputs|].key) else None
  }

  /** Event `j` saved `key`, and since then no requester has been saved or answered. */
  ghost predicate HoldsSince(parse: Parser, relayServer: string, events: seq<Event>, key: nat, j: nat)
    requires IsRun(parse, relayServer, events)
  {
    && j < |events| && SavesAt(parse, relayServer, events, j) == Some(key)
    && forall k | j < k < |events| ::
         SavesAt(parse, relayServer, events, k).None? && AnswersAt(parse, relayServer, events, k).None?
  }

  /** Serving a datagram changes neither the slot nor the phase, and answers no requester. */
  lemma UdpIsQuiet(parse: Parser, s: State, bytes: Bytes, addr: Addr)
    ensures var s' := StepUdp(parse, s, bytes, addr);
            && s'.phase == s.phase && s'.saved == s.saved
            && (s'.outputs == s.outputs
                || exists o: Output :: s'.outputs == s.outputs + [o] && !o.RelayResponseTo?)
  {
  }

  lemma SlotStep(parse: Parser, relayServer: string, events: seq<Event>)
    requires events != [] && IsRun(parse, relayServer, events)
    ensures var n := |events| - 1;
            var before, after := Run(parse, relayServer, events[..n]), Run(parse, relayServer, events);
            match SavesAt(parse, relayServer, events, n)
            case Some(key) => after.saved == Some(key) && AnswersAt(parse, relayServer, events, n).None?
            case None =>
              match AnswersAt(parse, relayServer, events, n)
              case Some(key) => before.saved == Some(key) && after.saved == None
              case None => after.saved == before.saved
  {
    hide RelayTurn, Opened, FirstMessage, LatestRegistration, StepUdp, Start;
    var n := |events| - 1;
    FrontIsRun(parse, relayServer, events, n);
    assert events[..n + 1] == events;
    if events[n].Datagram? {
      UdpIsQuiet(parse, Run(parse, relayServer, events[..n]), events[n].bytes, events[n].addr);
    }
    var e := events[n];
    var before := Run(parse, relayServer, events[..n]);
    if e.Accepted? && FirstMessage(parse, e.conn).Some? && FirstMessage(parse, e.conn).value.PunchHoleRequest? {
      IdMapIsHistory(parse, relayServer, events[..n], FirstMessage(parse, e.conn).value.id);
    }
  }

  /** What happened at an event does not depend on the events after it. */
  lemma PastIsFixed(parse: Parser, relayServer: string, events: seq<Event>, n: nat, i: nat)
    requires IsRun(parse, relayServer, events) && i < n <= |events|
    ensures IsRun(parse, relayServer, events[..n])
    ensures SavesAt(parse, relayServer, events[..n], i) == SavesAt(parse, relayServer, events, i)
    ensures AnswersAt(parse, relayServer, events[..n], i) == AnswersAt(parse, relayServer, events, i)
  {
    FrontIsRun(parse, relayServer, events, n);
    assert events[..n][..i] == events[..i] && events[..n][..i + 1] == events[..i + 1];
  }

  /** Main result: the slot holds a requester exactly when some event saved it and none since then has
      saved or answered one. */
  lemma {:induction false} SlotIsHistory(parse: Parser, relayServer: string, events: seq<Event>, key: nat)
    requires IsRun(parse, relayServer, events)
    ensures Run(parse, relayServer, events).saved == Some(key)
        <==> exists j :: HoldsSince(parse, relayServer, events, key, j)
    decreases |events|
  {
    hide SavesAt, AnswersAt, React;
    if events != [] {
      var n := |events| - 1;
      var front := events[..n];
      SlotIsHistory(parse, relayServer, front, key);
      SlotStep(parse, relayServer, events);
      forall i | 0 <= i < n
        ensures SavesAt(parse, relayServer, front, i) == SavesAt(parse, relayServer, events, i)
        ensures AnswersAt(parse, relayServer, front, i) == AnswersAt(parse, relayServer, events, i)
      {
        PastIsFixed(parse, relayServer, events, n, i);
      }
      var saves, answers := SavesAt(parse, relayServer, events, n), AnswersAt(parse, relayServer, events, n);
      if saves == Some(key) {
        assert HoldsSince(parse, relayServer, events, key, n);
      } else if saves.None? && answers.None? {
        if j :| HoldsSince(parse, relayServer, front, key, j) {
          assert HoldsSince(parse, relayServer, events, key, j);
        }
        if j :| HoldsSince(parse, relayServer, events, key, j) {
          assert HoldsSince(parse, relayServer, front, key, j);
        }
      }
    }
  }

  /** Main result, one-slot safety: a relay response goes only to the most recent requester whose punch
      request named a registered id, and only if none has been answered since it was saved. */
  lemma ResponseGoesToHolder(parse: Parser, relayServer: string, events: seq<Event>, i: nat) returns (j: nat)
    requires IsRun(parse, relayServer, events) && i < |events|
    requires AnswersAt(parse, relayServer, events, i).Some?
    ensures IsRun(parse, relayServer, events[..i])
    ensures HoldsSince(parse, relayServer, events[..i], AnswersAt(parse, relayServer, events, i).value, j)
  {
    hide SavesAt, AnswersAt, React, HoldsSince;
    var upTo := events[..i + 1];
    FrontIsRun(parse, relayServer, events, i);
    FrontIsRun(parse, relayServer, events, i + 1);
    assert upTo[..i] == events[..i];
    PastIsFixed(parse, relayServer, events, i + 1, i);
    SlotStep(parse, relayServer, upTo);
    var key := AnswersAt(parse, relayServer, events, i).value;
    SlotIsHistory(parse, relayServer, events[..i], key);
    j :| HoldsSince(parse, relayServer, events[..i], key, j);
  }

  /** Main result, every response is passed on: a requester is answered at an event exactly if it holds the slot and
      the event is a connection whose first message is a relay response. */
  lemma AnsweredIff(parse: Parser, relayServer: string, events: seq<Event>, i: nat, key: nat)
    requires IsRun(parse, relayServer, events) && i < |events|
    ensures IsRun(parse, relayServer, events[..i])
    ensures AnswersAt(parse, relayServer, events, i) == Some(key)
        <==> && events[i].Accepted? && Says(parse, events[i].conn, RelayResponse)
             && exists j :: HoldsSince(parse, relayServer, events[..i], key, j)
  {
    hide HoldsSince, Says;
    FrontIsRun(parse, relayServer, events, i);
    SlotIsHistory(parse, relayServer, events[..i], key);
    if events[i].Accepted? { FirstMessageIff(parse, events[i].conn, RelayResponse); }
    AnswerStep(parse, relayServer, events, i);
  }

  lemma AnswerStep(parse: Parser, relayServer: string, events: seq<Event>, i: nat)
    requires IsRun(parse, relayServer, events) && i < |events|
    ensures IsRun(parse, relayServer, events[..i])
    ensures AnswersAt(parse, relayServer, events, i)
         == if events[i].Accepted? && FirstMessage(parse, events[i].conn) == Some(RelayResponse)
            then Run(parse, relayServer, events[..i]).saved else None
  {
    hide RelayTurn, Opened, FirstMessage, StepUdp, Start;
    RunNext(parse, relayServer, events, i);
    if events[i].Datagram? {
      UdpIsQuiet(parse, Run(parse, relayServer, events[..i]), events[i].bytes, events[i].addr);
    }
  }

  /** What event `i` has the server send, from the bytes received and what came before: replies to registrations, a
      request to the latest registered address, a response to the holder of the slot, and nothing else. */
  ghost predicate Sends(parse: Parser, relayServer: string, events: seq<Event>, i: nat, out: seq<Output>)
    requires IsRun(parse, relayServer, events) && i < |events| && IsRun(parse, relayServer, events[..i])
  {
    match events[i]
    case Datagram(bytes, addr) =>
      out == (match parse(bytes)
              case Some(RegisterPeer(_)) => [RegisterPeerResponseTo(addr)]
              case Some(RegisterPk) => [RegisterPkOkTo(addr)]
              case _ => [])
    case Accepted(conn) =>
      || (exists id, k: nat ::
            && Says(parse, conn, PunchHoleRequest(id)) && LatestRegistration(parse, events[..i], id, k)
            && out == [RequestRelayTo(events[k].addr, relayServer)])
      || (exists key: nat, j: nat ::
            && Says(parse, conn, RelayResponse) && HoldsSince(parse, relayServer, events[..i], key, j)
            && out == [RelayResponseTo(key, relayServer)])
      || (&& out == []
          && (forall id, k: nat :: Says(parse, conn, PunchHoleRequest(id)) ==>
                !LatestRegistration(parse, events[..i], id, k))
          && (Says(parse, conn, RelayResponse) ==>
                forall key: nat, j: nat :: !HoldsSince(parse, relayServer, events[..i], key, j)))
    case _ => out == []
  }

  /** Main result: what the server has sent after a run is, event for event, what its history calls for. */
  lemma SentIsHistory(parse: Parser, relayServer: string, events: seq<Event>, i: nat) returns (out: seq<Output>)
    requires IsRun(parse, relayServer, events) && i < |events|
    ensures IsRun(parse, relayServer, events[..i]) && IsRun(parse, relayServer, events[..i + 1])
    ensures Run(parse, relayServer, events[..i + 1]).outputs == Run(parse, relayServer, events[..i]).outputs + out
    ensures Sends(parse, relayServer, events, i, out)
  {
    hide RelayTurn, Opened, FirstMessage, StepUdp, Start, HoldsSince, LatestRegistration, Says, Run, IsRun;
    RunNext(parse, relayServer, events, i);
    var before := Run(parse, relayServer, events[..i]);
    match events[i] {
      case Datagram(bytes, addr) =>
        out := UdpSends(parse, before, bytes, addr);
      case Accepted(conn) =>
        out := AcceptSends(parse, relayServer, events, i);
      case _ =>
        out := [];
        assert before.outputs + [] == before.outputs;
    }
  }

  lemma UdpSends(parse: Parser, s: State, bytes: Bytes, addr: Addr) returns (out: seq<Output>)
    ensures StepUdp(parse, s, bytes, addr).outputs == s.outputs + out
    ensures out == (match parse(bytes)
                    case Some(RegisterPeer(_)) => [RegisterPeerResponseTo(addr)]
                    case Some(RegisterPk) => [RegisterPkOkTo(addr)]
                    case _ => [])
  {
    out := match parse(bytes)
      case Some(RegisterPeer(_)) => [RegisterPeerResponseTo(addr)]
      case Some(RegisterPk) => [RegisterPkOkTo(addr)]
      case _ => [];
    assert s.outputs + [] == s.outputs;
  }

  lemma AcceptSends(parse: Parser, relayServer: string, events: seq<Event>, i: nat) returns (out: seq<Output>)
    requires IsRun(parse, relayServer, events) && i < |events| && events[i].Accepted?
    requires IsRun(parse, relayServer, events[..i])
    ensures StepAccept(parse, relayServer, Run(parse, relayServer, events[..i]), events[i].conn).outputs
         == Run(parse, relayServer, events[..i]).outputs + out
    ensures Sends(parse, relayServer, events, i, out)
  {
    hide RelayTurn, Opened, FirstMessage, StepUdp, Start, HoldsSince, LatestRegistration, Says, Run, IsRun;
    var conn, before := events[i].conn, Run(parse, relayServer, events[..i]);
    assert before.outputs + [] == before.outputs;
    out := [];
    forall u ensures FirstMessage(parse, conn) == Some(u) <==> Says(parse, conn, u) {
      FirstMessageIff(parse, conn, u);
    }
    forall key: nat, j: nat
      ensures HoldsSince(parse, relayServer, events[..i], key, j) ==> before.saved == Some(key)
    {
      SlotIsHistory(parse, relayServer, events[..i], key);
    }
    match FirstMessage(parse, conn) {
      case Some(PunchHoleRequest(id)) =>
        IdMapIsHistory(parse, relayServer, events[..i], id);
        if id in before.idMap {
          var k: nat :| LatestRegistration(parse, events[..i], id, k);
          RegistrationInRange(parse, events, i, id, k);
          out := [RequestRelayTo(events[k].addr, relayServer)];
        }
      case Some(RelayResponse) =>
        if before.saved.Some? {
          SlotIsHistory(parse, relayServer, events[..i], before.saved.value);
          out := [RelayResponseTo(before.saved.value, relayServer)];
        }
      case _ =>
    }
  }

  lemma RegistrationInRange(parse: Parser, events: seq<Event>, i: nat, id: string, k: nat)
    requires i <= |events| && LatestRegistration(parse, events[..i], id, k)
    ensures k < i && events[..i][k] == events[k] && events[k].Datagram?
  {
  }

  /** Main result, the order of waiting: after an answered response the server takes the two relay connections, one
      after the other, and then relays them; a failed accept, and the end of the relay, take it back to
      its outer loop, and nothing else moves it. */
  lemma PhaseIsHistory(parse: Parser, relayServer: string, events: seq<Event>)
    requires IsRun(parse, relayServer, events) && events != []
    ensures var n := |events| - 1;
            var front := events[..n];
            && IsRun(parse, relayServer, front)
            && var before, after := Run(parse, relayServer, front).phase, Run(parse, relayServer, events).phase;
               match events[n]
               case Datagram(_, _) => (before.Idle? || before.Relaying?) && after == before
               case Accepted(_) =>
                 before.Idle? && after == if AnswersAt(parse, relayServer, events, n).Some? then AwaitFirst else Idle
               case RelayAccepted(None) => (before.AwaitFirst? || before.AwaitSecond?) && after == Idle
               case RelayAccepted(Some(conn)) =>
                 if before.AwaitFirst? then after == AwaitSecond(Opened(conn))
                 else before.AwaitSecond? && after.Relaying?
               case Forward(_) => before.Relaying? && (after.Idle? || after.Relaying?)
  {
    hide RelayTurn, Opened, FirstMessage, StepUdp, Start;
    var n := |events| - 1;
    AnswerStep(parse, relayServer, events, n);
    if events[n].Datagram? {
      UdpIsQuiet(parse, Run(parse, relayServer, events[..n]), events[n].bytes, events[n].addr);
    }
  }

  /** What the server takes next: anything but relay connections in its outer loop, those alone while it awaits them,
      and in a session datagrams as well as relay turns. */
  lemma NextTaken(parse: Parser, relayServer: string, events: seq<Event>, e: Event)
    requires IsRun(parse, relayServer, events)
    ensures IsRun(parse, relayServer, events + [e])
        <==> match Run(parse, relayServer, events).phase
             case Idle => e.Datagram? || e.Accepted?
             case Relaying(_) => e.Datagram? || e.Forward?
             case _ => e.RelayAccepted?
  {
    hide React;
    assert (events + [e])[..|events|] == events;
  }

  /** So each saved requester is answered at most once: between two answers the requester that gets the
      second one was saved. */
  lemma AnsweredAtMostOnce(parse: Parser, relayServer: string, events: seq<Event>, i: nat, i': nat) returns (j: nat)
    requires IsRun(parse, relayServer, events) && i < i' < |events|
    requires AnswersAt(parse, relayServer, events, i).Some? && AnswersAt(parse, relayServer, events, i').Some?
    ensures i < j < i'
    ensures SavesAt(parse, relayServer, events, j) == AnswersAt(parse, relayServer, events, i')
  {
    hide SavesAt, AnswersAt, Run, IsRun;
    j := ResponseGoesToHolder(parse, relayServer, events, i');
    PastIsFixed(parse, relayServer, events, i', i);
    PastIsFixed(parse, relayServer, events, i', j);
    PastIsFixed(parse, relayServer, events, i + 1, i);
    SlotStep(parse, relayServer, events[..i + 1]);
  }

  predicate StartsSession(s: State, e: Event) {
    s.phase.AwaitSecond? && e.RelayAccepted? && e.accepted.Some?
  }

  /** How many requesters have been saved, how many answered, and how many relay sessions begun. */
  ghost function Counts(parse: Parser, relayServer: string, events: seq<Event>): (nat, nat, nat)
    requires IsRun(parse, relayServer, events)
    decreases |events|
  {
    if events == [] then (0, 0, 0)
    else
      var n := |events| - 1;
      var (saves, answers, sessions) := Counts(parse, relayServer, events[..n]);
      (saves + (if SavesAt(parse, relayServer, events, n).Some? then 1 else 0),
       answers + (if AnswersAt(parse, relayServer, events, n).Some? then 1 else 0),
       sessions + (if StartsSession(Run(parse, relayServer, events[..n]), events[n]) then 1 else 0))
  }

  lemma PhaseStep(parse: Parser, relayServer: string, events: seq<Event>)
    requires events != [] && IsRun(parse, relayServer, events)
    ensures var n := |events| - 1;
            var before, after := Run(parse, relayServer, events[..n]), Run(parse, relayServer, events);
            var awaits := (s: State) => s.phase.AwaitFirst? || s.phase.AwaitSecond?;
            && (AnswersAt(parse, relayServer, events, n).Some? ==> before.phase.Idle? && after.phase.AwaitFirst?)
            && (SavesAt(parse, relayServer, events, n).Some? ==> before.phase.Idle? && after.phase.Idle?)
            && (AnswersAt(parse, relayServer, events, n).None? && awaits(after)
                ==> awaits(before) && !StartsSession(before, events[n]))
            && (StartsSession(before, events[n]) ==> !awaits(after))
            && (!after.phase.Idle? && AnswersAt(parse, relayServer, events, n).None? ==> !before.phase.Idle?)
  {
    hide RelayTurn, Opened, FirstMessage, LatestRegistration, StepUdp, Start;
    var n := |events| - 1;
    FrontIsRun(parse, relayServer, events, n);
    assert events[..n + 1] == events;
    if events[n].Datagram? {
      UdpIsQuiet(parse, Run(parse, relayServer, events[..n]), events[n].bytes, events[n].addr);
    }
  }

  /** Main result: relay sessions never outnumber the answered requesters, nor those the saved ones; and outside
      the waiting loop the slot is empty. */
  lemma {:induction false} SessionsBounded(parse: Parser, relayServer: string, events: seq<Event>)
    requires IsRun(parse, relayServer, events)
    ensures var (saves, answers, sessions) := Counts(parse, relayServer, events);
            var s := Run(parse, relayServer, events);
            && sessions + (if s.phase.AwaitFirst? || s.phase.AwaitSecond? then 1 else 0) <= answers
            && answers + (if s.saved.Some? then 1 else 0) <= saves
            && (!s.phase.Idle? ==> s.saved.None?)
    decreases |events|
  {
    hide SavesAt, AnswersAt, React, Enabled;
    if events != [] {
      FrontIsRun(parse, relayServer, events, |events| - 1);
      SessionsBounded(parse, relayServer, events[..|events| - 1]);
      SlotStep(parse, relayServer, events);
      PhaseStep(parse, relayServer, events);
    }
  }

  // ---------------------------------------------------------------------------------------
  // Replies

  function CountReplies(outputs: seq<Output>, o: Output): nat {
    if outputs == [] then 0
    else CountReplies(outputs[..|outputs| - 1], o) + (if outputs[|outputs| - 1] == o then 1 else 0)
  }

  /** How many datagrams with a message of this kind came from `addr`. */
  function CountDatagrams(parse: Parser, events: seq<Event>, addr: Addr, pk: bool): nat {
    if events == [] then 0
    else
      var e := events[|events| - 1];
      CountDatagrams(parse, events[..|events| - 1], addr, pk)
      + (if e.Datagram? && e.addr == addr && parse(e.bytes).Some?
            && (if pk then parse(e.bytes).value.RegisterPk? else parse(e.bytes).value.RegisterPeer?) then 1 else 0)
  }

  lemma CountSnoc(outputs: seq<Output>, o: Output, x: Output)
    ensures CountReplies(outputs + [x], o) == CountReplies(outputs, o) + (if x == o then 1 else 0)
  {
    assert (outputs + [x])[..|outputs|] == outputs;
  }

  /** Main result: in every run each sender has been answered exactly once for each of its registrations,
      of either kind, and nobody else. */
  lemma {:induction false} RegistrationsAnswered(parse: Parser, relayServer: string, events: seq<Event>, addr: Addr)
    requires IsRun(parse, relayServer, events)
    ensures var outputs := Run(parse, relayServer, events).outputs;
            && CountReplies(outputs, RegisterPeerResponseTo(addr)) == CountDatagrams(parse, events, addr, false)
            && CountReplies(outputs, RegisterPkOkTo(addr)) == CountDatagrams(parse, events, addr, true)
    decreases |events|
  {
    if events != [] {
      var front := events[..|events| - 1];
      RegistrationsAnswered(parse, relayServer, front, addr);
      RepliesStep(parse, relayServer, Run(parse, relayServer, front), events[|events| - 1], addr);
    }
  }

  lemma RepliesStep(parse: Parser, relayServer: string, s: State, e: Event, addr: Addr)
    requires Enabled(s, e)
    ensures var s' := React(parse, relayServer, s, e);
            var ofPeer := e.Datagram? && e.addr == addr && parse(e.bytes).Some? && parse(e.bytes).value.RegisterPeer?;
            var ofPk := e.Datagram? && e.addr == addr && parse(e.bytes).Some? && parse(e.bytes).value.RegisterPk?;
            && CountReplies(s'.outputs, RegisterPeerResponseTo(addr))
               == CountReplies(s.outputs, RegisterPeerResponseTo(addr)) + (if ofPeer then 1 else 0)
            && CountReplies(s'.outputs, RegisterPkOkTo(addr))
               == CountReplies(s.outputs, RegisterPkOkTo(addr)) + (if ofPk then 1 else 0)
  {
    hide RelayTurn, Opened, FirstMessage, CountReplies, Start;
    var s' := React(parse, relayServer, s, e);
    if s'.outputs != s.outputs {
      var x := s'.outputs[|s.outputs|];
      assert s'.outputs == s.outputs + [x];
      CountSnoc(s.outputs, RegisterPeerResponseTo(addr), x);
      CountSnoc(s.outputs, RegisterPkOkTo(addr), x);
    }
  }

  // ---------------------------------------------------------------------------------------
  // Relay sessions inside a run

  /** The relay turns among some events. */
  function TurnsOf(events: seq<Event>): seq<Turn> {
    if events == [] then []
    else
      TurnsOf(events[..|events| - 1]) + (if events[|events| - 1].Forward? then [events[|events| - 1].turn] else [])
  }

  lemma {:induction false} RunRelaySnoc(r: RelayState, turns: seq<Turn>, t: Turn)
    ensures RunRelay(r, turns + [t]) == RelayTurn(RunRelay(r, turns), t)
    decreases turns
  {
    hide RelayTurn;
    if turns == [] {
      assert [] + [t] == [t] && [t][1..] == [];
    } else {
      assert (turns + [t])[1..] == turns[1..] + [t];
      RunRelaySnoc(RelayTurn(r, turns[0]), turns[1..], t);
    }
  }

  /** Event `j` is the second relay connection of a session, and up to its end or the last event nothing but
      datagrams and relay turns follow. */
  ghost predicate Serves(parse: Parser, relayServer: string, events: seq<Event>, j: nat)
    requires IsRun(parse, relayServer, events)
  {
    && j < |events| && IsRun(parse, relayServer, events[..j])
    && StartsSession(Run(parse, relayServer, events[..j]), events[j])
    && forall k | j < k < |events| :: events[k].Datagram? || events[k].Forward?
  }

  /** The connection accepted by an event. */
  function Connection(e: Event): Conn
    requires e.RelayAccepted? && e.accepted.Some?
  {
    e.accepted.value
  }

  /** A session's first connection is the one accepted right before the second. */
  lemma FirstConnection(parse: Parser, relayServer: string, events: seq<Event>)
    requires IsRun(parse, relayServer, events) && Run(parse, relayServer, events).phase.AwaitSecond?
    ensures events != [] && events[|events| - 1].RelayAccepted? && events[|events| - 1].accepted.Some?
    ensures Run(parse, relayServer, events).phase.stream == Opened(Connection(events[|events| - 1]))
  {
    hide RelayTurn, Opened, Start, FirstMessage, StepUdp;
    if events != [] && events[|events| - 1].Datagram? {
      var e := events[|events| - 1];
      UdpIsQuiet(parse, Run(parse, relayServer, events[..|events| - 1]), e.bytes, e.addr);
    }
  }

  /** Main result: a session is its two connections relayed by its own turns alone, whatever datagrams are
      served in between, and the server is back in its outer loop exactly if those turns end the
      relay. */
  lemma {:induction false} SessionIsRelay(parse: Parser, relayServer: string, events: seq<Event>, j: nat)
    requires IsRun(parse, relayServer, events) && Serves(parse, relayServer, events, j)
    ensures 0 < j && events[j - 1].RelayAccepted? && events[j - 1].accepted.Some?
    ensures var r := Joined(Connection(events[j - 1]), Connection(events[j]), TurnsOf(events[j + 1..]));
            Run(parse, relayServer, events).phase == if r.ended.Some? then Idle else Relaying(r)
    decreases |events|
  {
    hide RelayTurn, Opened, Start, React, IsRun, Run, TurnsOf;
    var n := |events| - 1;
    var front := events[..n];
    LastStep(parse, relayServer, events);
    if n == j {
      assert events[j + 1..] == [];
      FirstConnection(parse, relayServer, front);
      SessionStarts(parse, relayServer, Run(parse, relayServer, front), events[j - 1], events[j]);
    } else {
      assert front[..j] == events[..j];
      SessionIsRelay(parse, relayServer, front, j);
      assert events[j + 1..] == front[j + 1..] + [events[n]];
      SessionStep(parse, relayServer, Run(parse, relayServer, front), events[n],
        Connection(events[j - 1]), Connection(events[j]), front[j + 1..]);
    }
  }

  lemma LastStep(parse: Parser, relayServer: string, events: seq<Event>)
    requires IsRun(parse, relayServer, events) && events != []
    ensures var front := events[..|events| - 1];
            && IsRun(parse, relayServer, front)
            && Enabled(Run(parse, relayServer, front), events[|events| - 1])
            && Run(parse, relayServer, events)
               == React(parse, relayServer, Run(parse, relayServer, front), events[|events| - 1])
  {
    hide React, Enabled;
  }

  lemma SessionStarts(parse: Parser, relayServer: string, s: State, first: Event, second: Event)
    requires Enabled(s, second) && StartsSession(s, second)
    requires first.RelayAccepted? && first.accepted.Some? && s.phase.stream == Opened(Connection(first))
    ensures Joined(Connection(first), Connection(second), TurnsOf([])).ended.None?
    ensures React(parse, relayServer, s, second).phase
         == Relaying(Joined(Connection(first), Connection(second), TurnsOf([])))
  {
    hide Opened, RelayTurn, Start;
    FreshRelay(Opened(Connection(first)), Opened(Connection(second)));
  }

  /** One more event of a session: a turn is taken on the joined connections, a datagram leaves them alone. */
  lemma SessionStep(parse: Parser, relayServer: string, s: State, e: Event, stream: Conn, peer: Conn,
                    before: seq<Event>)
    requires Enabled(s, e) && (e.Datagram? || e.Forward?)
    requires var r := Joined(stream, peer, TurnsOf(before)); s.phase == if r.ended.Some? then Idle else Relaying(r)
    ensures var r := Joined(stream, peer, TurnsOf(before + [e]));
            React(parse, relayServer, s, e).phase == if r.ended.Some? then Idle else Relaying(r)
  {
    hide RelayTurn, Opened, Start, StepUdp, StepAccept;
    TurnsSnoc(before, e);
    if e.Forward? {
      RunRelaySnoc(Start(Opened(stream), Opened(peer)), TurnsOf(before), e.turn);
    } else {
      UdpIsQuiet(parse, s, e.bytes, e.addr);
    }
  }

  lemma TurnsSnoc(events: seq<Event>, e: Event)
    ensures TurnsOf(events + [e]) == if e.Forward? then TurnsOf(events) + [e.turn] else TurnsOf(events)
  {
    assert (events + [e])[..|events|] == events;
  }

  lemma FreshRelay(stream: Side, peer: Side)
    ensures RunRelay(Start(stream, peer), []) == Start(stream, peer) && Start(stream, peer).ended.None?
  {
  }

  /** Main result: two endpoints whose connections the server has joined decode, at every moment of the
      session and after its end, a prefix of each other's frames, without a failure. The server
      has left the session exactly if the turns ended it, and an end by a connection's end of
      stream has let all frames of that connection through. */
  lemma SessionPassesFrames(parse: Parser, relayServer: string, events: seq<Event>, j: nat, stream: Conn, peer: Conn,
                            streamOpening: Bytes, peerOpening: Bytes, streamMsgs: seq<Bytes>, peerMsgs: seq<Bytes>,
                            atStream: seq<Bytes>, atPeer: seq<Bytes>)
    requires IsRun(parse, relayServer, events) && Serves(parse, relayServer, events, j)
    requires 0 < j && events[j - 1] == RelayAccepted(Some(stream)) && events[j] == RelayAccepted(Some(peer))
    requires Frames(stream, streamOpening, streamMsgs) && Frames(peer, peerOpening, peerMsgs)
    requires var r := Joined(stream, peer, TurnsOf(events[j + 1..]));
             Concat(atStream) == r.stream.written && Concat(atPeer) == r.peer.written
    ensures var r := Joined(stream, peer, TurnsOf(events[j + 1..]));
            && (Run(parse, relayServer, events).phase == Idle <==> r.ended.Some?)
            && Delivers(FeedAll(FRESH, [], atStream), peerMsgs, r.ended == Some(PeerEof))
            && Delivers(FeedAll(FRESH, [], atPeer), streamMsgs, r.ended == Some(StreamEof))
  {
    hide IsRun, Run, Joined, Frames, TurnsOf, Delivers, FeedAll, Concat;
    SessionIsRelay(parse, relayServer, events, j);
    FramesPassRelay(stream, peer, streamOpening, peerOpening, streamMsgs, peerMsgs, TurnsOf(events[j + 1..]),
      atStream, atPeer);
  }

  // ---------------------------------------------------------------------------------------
  // The loops

  lemma RunNext(parse: Parser, relayServer: string, events: seq<Event>, i: nat)
    requires IsRun(parse, relayServer, events) && i < |events|
    ensures IsRun(parse, relayServer, events[..i]) && Enabled(Run(parse, relayServer, events[..i]), events[i])
    ensures IsRun(parse, relayServer, events[..i + 1])
    ensures Run(parse, relayServer, events[..i + 1])
         == React(parse, relayServer, Run(parse, relayServer, events[..i]), events[i])
  {
    FrontIsRun(parse, relayServer, events, i);
    FrontIsRun(parse, relayServer, events, i + 1);
    assert events[..i + 1][..i] == events[..i];
  }

  class RendezvousServer {
    const parse: Parser
    const relayServer: string
    var idMap: map<string, Addr>
    var saved: Option<nat>
    var outputs: seq<Output>
    /** Which loop the server is in. */
    ghost var phase: Phase

    ghost function Value(): State
      reads this
    {
      State(idMap, saved, phase, outputs)
    }

    /** The first `n` events of a run have been processed. */
    ghost predicate Processed(events: seq<Event>, n: nat)
      reads this
    {
      n <= |events| && IsRun(parse, relayServer, events) && IsRun(parse, relayServer, events[..n])
      && Value() == Run(parse, relayServer, events[..n])
    }

    constructor (parse: Parser, relayServer: string)
      ensures this.parse == parse && this.relayServer == relayServer && Value() == START
    {
      this.parse, this.relayServer := parse, relayServer;
      idMap, saved, outputs, phase := map[], None, [], Idle;
    }

    method HandleUdp(bytes: Bytes, addr: Addr)
      modifies this
      ensures Value() == StepUdp(parse, old(Value()), bytes, addr)
    {
      var msg := parse(bytes);
      if msg.Some? {
        match msg.value {
          case RegisterPeer(id) =>
            idMap := idMap[id := addr];
            outputs := outputs + [RegisterPeerResponseTo(addr)];
          case RegisterPk =>
            outputs := outputs + [RegisterPkOkTo(addr)];
          case _ =>
        }
      }
    }

    /** Handles an accepted connection; says whether a saved requester was answered. */
    method HandleConnection(conn: Conn) returns (answered: bool)
      requires phase == Idle
      modifies this
      ensures Value() == StepAccept(parse, relayServer, old(Value()), conn)
      ensures answered <==> phase == AwaitFirst
    {
      hide Poll;
      answered := false;
      var msg := FirstMessage(parse, conn);
      if msg.Some? {
        match msg.value {
          case PunchHoleRequest(id) =>
            if id in idMap {
              outputs := outputs + [RequestRelayTo(idMap[id], relayServer)];
              saved := Some(conn.key);
            }
          case RelayResponse =>
            var requester := saved;
            saved := None;
            if requester.Some? {
              outputs := outputs + [RelayResponseTo(requester.value, relayServer)];
              phase := AwaitFirst;
              answered := true;
            }
          case _ =>
        }
      }
    }

    /** Serves datagrams and passes bytes on until a connection ends or the events do. */
    method RelayLoop(stream: Side, peer: Side, events: seq<Event>, from: nat) returns (next: nat)
      requires Processed(events, from) && phase == Relaying(Start(stream, peer))
      modifies this
      ensures from <= next && Processed(events, next) && (next < |events| ==> phase == Idle)
    {
      hide IsRun, Run, Take, RelayTurn, StepAccept, Opened;
      var a, b := RawSide(stream), RawSide(peer);
      next := from;
      while next < |events|
        invariant from <= next && Processed(events, next) && phase == Relaying(RelayState(a, b, None))
      {
        RunNext(parse, relayServer, events, next);
        var e := events[next];
        next := next + 1;
        if e.Datagram? {
          HandleUdp(e.bytes, e.addr);
        } else {
          var ended;
          a, b, ended := PassOn(a, b, e.turn);
          phase := if ended then Idle else Relaying(RelayState(a, b, None));
          if ended {
            return;
          }
        }
      }
    }

    /** One turn of the relay, on the two connections it owns. */
    static method PassOn(a: Side, b: Side, turn: Turn) returns (a': Side, b': Side, ended: bool)
      ensures var r := RelayTurn(RelayState(a, b, None), turn);
              a' == r.stream && b' == r.peer && ended == r.ended.Some?
    {
      hide Take;
      a', b', ended := a, b, false;
      match turn {
        case PeerReady =>
          var (data, rest) := Take(b);
          b' := rest;
          if data.Some? {
            a' := Give(a, data.value);
          } else {
            ended := true;
          }
        case StreamReady =>
          var (data, rest) := Take(a);
          a' := rest;
          if data.Some? {
            b' := Give(b, data.value);
          } else {
            ended := true;
          }
        case _ =>
          ended := true;
      }
    }

    /** Accepts the two relay connections, serving nothing else meanwhile, and relays them. */
    method RelaySession(events: seq<Event>, from: nat) returns (next: nat)
      requires Processed(events, from) && phase == AwaitFirst
      modifies this
      ensures from <= next && Processed(events, next) && (next < |events| ==> phase == Idle)
    {
      hide IsRun, Run, RelayTurn, StepAccept, StepUdp, Opened, Start;
      next := from;
      if next == |events| {
        return;
      }
      RunNext(parse, relayServer, events, next);
      var first := events[next].accepted;
      next := next + 1;
      if first.None? {
        phase := Idle;
        return;
      }
      var stream := Opened(first.value);
      phase := AwaitSecond(stream);
      if next == |events| {
        return;
      }
      RunNext(parse, relayServer, events, next);
      var second := events[next].accepted;
      next := next + 1;
      if second.None? {
        phase := Idle;
        return;
      }
      var peer := Opened(second.value);
      phase := Relaying(Start(stream, peer));
      next := RelayLoop(stream, peer, events, next);
    }

    /** The event loop, from the start: it ends in the state the transition system defines for the run. */
    method Serve(events: seq<Event>)
      requires IsRun(parse, relayServer, events) && Value() == START
      modifies this
      ensures Value() == Run(parse, relayServer, events)
    {
      hide React, StepAccept, StepUdp;
      var i := 0;
      FrontIsRun(parse, relayServer, events, 0);
      while i < |events|
        invariant Processed(events, i) && (i < |events| ==> phase == Idle)
      {
        i := ServeOne(events, i);
      }
      assert events[..i] == events;
    }

    /** One event of the outer loop, with the relay session it may open. */
    method ServeOne(events: seq<Event>, i: nat) returns (next: nat)
      requires Processed(events, i) && i < |events| && phase == Idle
      modifies this
      ensures i < next && Processed(events, next) && (next < |events| ==> phase == Idle)
    {
      hide IsRun, Run, RelayTurn, StepAccept, StepUdp, Opened, Start;
      RunNext(parse, relayServer, events, i);
      var e := events[i];
      next := i + 1;
      if e.Datagram? {
        HandleUdp(e.bytes, e.addr);
        KeepsPhase(parse, old(Value()), e.bytes, e.addr);
      } else {
        var answered := HandleConnection(e.conn);
        IdleOrAwaiting(parse, relayServer, old(Value()), e.conn);
        if answered {
          next := RelaySession(events, next);
        }
      }
    }
  }

  lemma KeepsPhase(parse: Parser, s: State, bytes: Bytes, addr: Addr)
    ensures StepUdp(parse, s, bytes, addr).phase == s.phase
  {
  }

  lemma IdleOrAwaiting(parse: Parser, relayServer: string, s: State, conn: Conn)
    requires s.phase == Idle
    ensures StepAccept(parse, relayServer, s, conn).phase in {Idle, AwaitFirst}
  {
  }
}
