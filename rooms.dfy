/**
 * One room of the signaling server, seen as a value: the media pipeline and the
 * two endpoint slots (caller and callee), and what the server asks of the media
 * relay (Kurento) and of the sockets when it acts on that room.
 *
 * Relay objects are opaque handles; what the relay answers is a parameter.
 */
module Rooms {
  import opened Wrappers

  /** The room id a client sends; "" stands for a missing (falsy) id. */
  type RoomId = string

  /** socket.io connection ids are never empty, so a bound id is always truthy. */
  type SocketId = s: string | s != "" witness "s"

  datatype Pipeline = Pipeline(id: nat)
  datatype Endpoint = Endpoint(id: nat)
  datatype Candidate = Candidate(text: string)

  datatype Role = Caller | Callee {
    function Other(): (o: Role)
      ensures o != this
    {
      if this == Caller then Callee else Caller
    }
  }

  /** `room.caller` / `room.callee`: the side's WebRtcEndpoint and the socket bound to it. */
  datatype Slot = Slot(webrtc: Option<Endpoint>, socketId: Option<SocketId>)

  const EmptySlot: Slot := Slot(None, None)

  datatype RoomView = RoomView(pipeline: Option<Pipeline>, caller: Slot, callee: Slot)

  /** The entry `ensureRoom` puts in the map before any pipeline exists. */
  const Shell: RoomView := RoomView(None, EmptySlot, EmptySlot)

  function SlotOf(r: RoomView, side: Role): Slot {
    if side == Caller then r.caller else r.callee
  }

  function WithSlot(r: RoomView, side: Role, s: Slot): (u: RoomView)
    ensures SlotOf(u, side) == s
    ensures SlotOf(u, side.Other()) == SlotOf(r, side.Other())
    ensures u.pipeline == r.pipeline
  {
    if side == Caller then r.(caller := s) else r.(callee := s)
  }

  predicate BoundTo(s: Slot, sender: SocketId) {
    s.socketId == Some(sender)
  }

  /** Neither side has a bound socket: the condition under which `releaseRoom` tears down. */
  predicate Idle(r: RoomView) {
    r.caller.socketId.None? && r.callee.socketId.None?
  }

  /** The socket is bound to at least one side of the room. */
  predicate Touches(r: RoomView, sender: SocketId) {
    BoundTo(r.caller, sender) || BoundTo(r.callee, sender)
  }

  function ClearSlot(s: Slot, sender: SocketId): Slot {
    if BoundTo(s, sender) then s.(socketId := None) else s
  }

  /** `stop` and `disconnect`: null every socketId equal to the sender's id, touch nothing else. */
  function Unbind(r: RoomView, sender: SocketId): (u: RoomView)
    ensures !Touches(u, sender)
    ensures u.pipeline == r.pipeline
    ensures u.caller.webrtc == r.caller.webrtc && u.callee.webrtc == r.callee.webrtc
    ensures forall other: SocketId :: other != sender ==>
              (BoundTo(u.caller, other) <==> BoundTo(r.caller, other)) &&
              (BoundTo(u.callee, other) <==> BoundTo(r.callee, other))
    ensures Idle(u) <==> forall other: SocketId :: other != sender ==> !Touches(r, other)
    ensures !Touches(r, sender) ==> u == r
  {
    var u := RoomView(r.pipeline, ClearSlot(r.caller, sender), ClearSlot(r.callee, sender));
    assert u.caller.socketId.Some? ==> Touches(r, u.caller.socketId.value);
    assert u.callee.socketId.Some? ==> Touches(r, u.callee.socketId.value);
    u
  }

  // ---------------------------------------------------------------------------
  // What the server does outside the room map

  datatype Message =
    | SdpAnswer(answerRoom: RoomId, sdp: string)
    | StopMsg(stopRoom: RoomId)
    | PeerJoined(joinedRoom: RoomId, role: string)

  datatype Target =
    | ToSocket(socket: SocketId)                 // io.to(socket.id)
    | ToRoom(room: RoomId)                       // io.to(roomId): every member, sender included
    | ToRoomExcept(inRoom: RoomId, except: SocketId)  // socket.to(roomId): every member but the sender

  datatype Effect =
    | Emit(to: Target, msg: Message)
    | Ack(ok: bool)
    | JoinChannel(member: SocketId, channel: RoomId)
    | CreatePipeline(forRoom: RoomId)
    | CreateEndpoint(inPipeline: Pipeline)
    /** applyIceServers plus the endpoint's event handlers, which forward found candidates to `owner` */
    | AttachEndpoint(attached: Endpoint, owner: SocketId)
    | ProcessOffer(offerTo: Endpoint, offer: string)
    | GatherCandidates(gatherer: Endpoint)
    | AddIceCandidate(iceTo: Endpoint, candidate: Candidate)
    | Connect(source: Endpoint, sink: Endpoint)
    | ReleaseEndpoint(releasedEndpoint: Endpoint)
    | ReleasePipeline(releasedPipeline: Pipeline)

  function StopTo(sender: SocketId, roomId: RoomId): Effect {
    Emit(ToSocket(sender), StopMsg(roomId))
  }

  predicate IsRelease(e: Effect) {
    e.ReleaseEndpoint? || e.ReleasePipeline?
  }

  predicate IsConnect(e: Effect) {
    e.Connect?
  }

  /** The three guarded `release()` calls of `releaseRoom`: caller endpoint, callee endpoint, pipeline. */
  function ReleaseEffects(r: RoomView): (fx: seq<Effect>)
    ensures forall i :: 0 <= i < |fx| ==> IsRelease(fx[i])
    ensures forall e: Endpoint :: ReleaseEndpoint(e) in fx <==> r.caller.webrtc == Some(e) || r.callee.webrtc == Some(e)
    ensures forall p: Pipeline :: ReleasePipeline(p) in fx <==> r.pipeline == Some(p)
  {
    (if r.caller.webrtc.Some? then [ReleaseEndpoint(r.caller.webrtc.value)] else [])
    + (if r.callee.webrtc.Some? then [ReleaseEndpoint(r.callee.webrtc.value)] else [])
    + (if r.pipeline.Some? then [ReleasePipeline(r.pipeline.value)] else [])
  }

  /** Unbinding sockets changes nothing the relay is asked to release. */
  lemma ReleaseIgnoresBindings(r: RoomView, sender: SocketId)
    ensures ReleaseEffects(Unbind(r, sender)) == ReleaseEffects(r)
  {
  }

  // ---------------------------------------------------------------------------
  // ICE candidate routing

  /**
   * The endpoint an `ice-candidate` from `sender` is added to: the first side, caller
   * before callee, that is bound to the sender and has an endpoint.
   */
  function IceTarget(r: RoomView, sender: SocketId): (t: Option<Endpoint>)
    ensures t.Some? <==>
              (BoundTo(r.caller, sender) && r.caller.webrtc.Some?) ||
              (BoundTo(r.callee, sender) && r.callee.webrtc.Some?)
    ensures t.Some? ==> exists side: Role :: BoundTo(SlotOf(r, side), sender) && SlotOf(r, side).webrtc == t
    ensures BoundTo(r.caller, sender) && r.caller.webrtc.Some? ==> t == r.caller.webrtc
  {
    if BoundTo(r.caller, sender) && r.caller.webrtc.Some? then
      assert SlotOf(r, Caller) == r.caller;
      r.caller.webrtc
    else if BoundTo(r.callee, sender) && r.callee.webrtc.Some? then
      assert SlotOf(r, Callee) == r.callee;
      r.callee.webrtc
    else
      None
  }

  /** With two different sockets on the two sides, each one's candidates reach only its own endpoint. */
  lemma CandidatesStayOnTheirSide(r: RoomView, a: SocketId, b: SocketId)
    requires a != b && BoundTo(r.caller, a) && BoundTo(r.callee, b)
    ensures IceTarget(r, a) == r.caller.webrtc
    ensures IceTarget(r, b) == r.callee.webrtc
    ensures forall c: SocketId :: c != a && c != b ==> IceTarget(r, c).None?
  {
  }

  // ---------------------------------------------------------------------------
  // The offer, once ensureRoom has produced the room

  /** What the relay answers during one offer: createEndpoint, processOffer and the caller->callee connect. */
  datatype Relay = Relay(endpoint: Option<Endpoint>, answer: Option<string>, forwardConnected: bool)

  datatype Negotiated = Negotiated(room: RoomView, effects: seq<Effect>, answered: bool)

  predicate BothEndpoints(r: RoomView) {
    r.caller.webrtc.Some? && r.callee.webrtc.Some?
  }

  /**
   * `connectBothWays`: skipped unless both endpoints exist; caller->callee first and,
   * only if that succeeded, callee->caller. A failure is swallowed (no state change).
   */
  function ConnectBothWays(r: RoomView, forwardConnected: bool): (fx: seq<Effect>)
    ensures !BothEndpoints(r) ==> fx == []
    ensures BothEndpoints(r) ==>
              |fx| == (if forwardConnected then 2 else 1) &&
              fx[0] == Connect(r.caller.webrtc.value, r.callee.webrtc.value) &&
              (forwardConnected ==> fx[1] == Connect(r.callee.webrtc.value, r.caller.webrtc.value))
    ensures forall i :: 0 <= i < |fx| ==> IsConnect(fx[i])
  {
    if !BothEndpoints(r) then []
    else
      var a, b := r.caller.webrtc.value, r.callee.webrtc.value;
      [Connect(a, b)] + (if forwardConnected then [Connect(b, a)] else [])
  }

  predicate HasConnect(fx: seq<Effect>) {
    exists i :: 0 <= i < |fx| && IsConnect(fx[i])
  }

  predicate CreatesEndpoint(fx: seq<Effect>) {
    exists i :: 0 <= i < |fx| && fx[i].CreateEndpoint?
  }

  /** The endpoint an offer is processed on, with the relay calls made to get it. */
  datatype EndpointStep = EndpointFailed(failFx: seq<Effect>) | EndpointReady(ep: Endpoint, readyFx: seq<Effect>)

  /**
   * `if (!room[side].webrtc) room[side].webrtc = await createEndpoint(room.pipeline)`:
   * reuse the side's endpoint, or create one in the room's pipeline (a null pipeline
   * makes the creation throw before the relay is asked).
   */
  function ResolveEndpoint(r: RoomView, side: Role, sender: SocketId, relay: Relay): (s: EndpointStep)
    ensures SlotOf(r, side).webrtc.Some? ==> s == EndpointReady(SlotOf(r, side).webrtc.value, [])
    ensures SlotOf(r, side).webrtc.None? ==>
              (s.EndpointReady? <==> r.pipeline.Some? && relay.endpoint.Some?) &&
              (s.EndpointReady? ==> s.ep == relay.endpoint.value) &&
              (s.EndpointReady? ==> s.readyFx == [CreateEndpoint(r.pipeline.value), AttachEndpoint(s.ep, sender)]) &&
              (s.EndpointFailed? ==> s.failFx == if r.pipeline.Some? then [CreateEndpoint(r.pipeline.value)] else [])
  {
    var slot := SlotOf(r, side);
    if slot.webrtc.Some? then EndpointReady(slot.webrtc.value, [])
    else if r.pipeline.None? then EndpointFailed([])
    else if relay.endpoint.None? then EndpointFailed([CreateEndpoint(r.pipeline.value)])
    else EndpointReady(relay.endpoint.value, [CreateEndpoint(r.pipeline.value), AttachEndpoint(relay.endpoint.value, sender)])
  }

  /**
   * The `sdp-offer` handler after `ensureRoom` returned room `r`: resolve the side's
   * endpoint, process the offer, gather candidates, bind the sender, answer it, and
   * connect both ways when both endpoints exist. A relay failure ends the handler
   * with `stop` to the sender, keeping whatever was already stored.
   */
  function Negotiation(r: RoomView, roomId: RoomId, side: Role, sdp: string, sender: SocketId, relay: Relay): (n: Negotiated)
    ensures n.room.pipeline == r.pipeline
    ensures SlotOf(n.room, side.Other()) == SlotOf(r, side.Other())
  {
    match ResolveEndpoint(r, side, sender, relay)
    case EndpointFailed(fx) =>
      Negotiated(r, fx + [StopTo(sender, roomId)], false)
    case EndpointReady(ep, fx) =>
      var slot := SlotOf(r, side);
      if relay.answer.None? then
        Negotiated(WithSlot(r, side, slot.(webrtc := Some(ep))), fx + [ProcessOffer(ep, sdp), StopTo(sender, roomId)], false)
      else
        var bound := WithSlot(r, side, Slot(Some(ep), Some(sender)));
        var answer := Emit(ToSocket(sender), SdpAnswer(roomId, relay.answer.value));
        Negotiated(bound, fx + [ProcessOffer(ep, sdp), GatherCandidates(ep), answer]
                          + ConnectBothWays(bound, relay.forwardConnected), true)
  }

  /** Create-if-absent: the side's existing endpoint is reused; otherwise one is created exactly when the room has a pipeline. */
  lemma NegotiationCreatesEndpointIfAbsent(r: RoomView, roomId: RoomId, side: Role, sdp: string, sender: SocketId, relay: Relay)
    ensures var n := Negotiation(r, roomId, side, sdp, sender, relay);
            && (SlotOf(r, side).webrtc.Some? ==>
                  SlotOf(n.room, side).webrtc == SlotOf(r, side).webrtc && !CreatesEndpoint(n.effects))
            && (SlotOf(r, side).webrtc.None? ==>
                  (CreatesEndpoint(n.effects) <==> r.pipeline.Some?) &&
                  (SlotOf(n.room, side).webrtc.Some? <==> r.pipeline.Some? && relay.endpoint.Some?) &&
                  (SlotOf(n.room, side).webrtc.Some? ==> SlotOf(n.room, side).webrtc == relay.endpoint))
  {
    var n := Negotiation(r, roomId, side, sdp, sender, relay);
    match ResolveEndpoint(r, side, sender, relay)
    case EndpointFailed(fx) =>
      if r.pipeline.Some? {
        assert n.effects[0].CreateEndpoint?;
      } else {
        assert forall i :: 0 <= i < |n.effects| ==> !n.effects[i].CreateEndpoint?;
      }
    case EndpointReady(ep, fx) =>
      if SlotOf(r, side).webrtc.None? {
        assert n.effects[0].CreateEndpoint?;
      } else {
        forall i | 0 <= i < |n.effects| ensures !n.effects[i].CreateEndpoint? { }
      }
  }

  /** The offer is answered exactly when an endpoint is available and the relay accepts the offer; the answer binds the sender, a failure ends with `stop`. */
  lemma NegotiationOutcome(r: RoomView, roomId: RoomId, side: Role, sdp: string, sender: SocketId, relay: Relay)
    ensures var n := Negotiation(r, roomId, side, sdp, sender, relay);
            && (n.answered <==>
                  (SlotOf(r, side).webrtc.Some? || (r.pipeline.Some? && relay.endpoint.Some?)) && relay.answer.Some?)
            && (n.answered ==>
                  BoundTo(SlotOf(n.room, side), sender) && SlotOf(n.room, side).webrtc.Some? &&
                  Emit(ToSocket(sender), SdpAnswer(roomId, relay.answer.value)) in n.effects)
            && (!n.answered ==>
                  SlotOf(n.room, side).socketId == SlotOf(r, side).socketId &&
                  |n.effects| > 0 && n.effects[|n.effects| - 1] == StopTo(sender, roomId))
            && (forall i :: 0 <= i < |n.effects| ==> !IsRelease(n.effects[i]))
  {
    var n := Negotiation(r, roomId, side, sdp, sender, relay);
    match ResolveEndpoint(r, side, sender, relay)
    case EndpointFailed(fx) =>
    case EndpointReady(ep, fx) =>
      if relay.answer.Some? {
        var answer := Emit(ToSocket(sender), SdpAnswer(roomId, relay.answer.value));
        assert n.effects[|fx| + 2] == answer;
      }
  }

  /** The connect runs only on an answered offer and exactly when both sides then have an endpoint. */
  lemma NegotiationConnects(r: RoomView, roomId: RoomId, side: Role, sdp: string, sender: SocketId, relay: Relay)
    ensures var n := Negotiation(r, roomId, side, sdp, sender, relay);
            HasConnect(n.effects) <==> n.answered && BothEndpoints(n.room)
  {
    var n := Negotiation(r, roomId, side, sdp, sender, relay);
    match ResolveEndpoint(r, side, sender, relay)
    case EndpointFailed(fx) =>
      forall i | 0 <= i < |n.effects| ensures !IsConnect(n.effects[i]) { }
    case EndpointReady(ep, fx) =>
      if relay.answer.None? {
        forall i | 0 <= i < |n.effects| ensures !IsConnect(n.effects[i]) { }
      } else if BothEndpoints(n.room) {
        assert IsConnect(n.effects[|fx| + 3]);
      } else {
        forall i | 0 <= i < |n.effects| ensures !IsConnect(n.effects[i]) { }
      }
  }

  /**
   * Two successful offers, one per side, on a room that has its pipeline give the
   * same room whichever side offers first, and the connect happens on the second one only.
   */
  lemma OfferOrderIndependent(r: RoomView, roomId: RoomId, sdpA: string, a: SocketId, relayA: Relay,
                              sdpB: string, b: SocketId, relayB: Relay)
    requires r == RoomView(r.pipeline, EmptySlot, EmptySlot) && r.pipeline.Some?
    requires relayA.endpoint.Some? && relayA.answer.Some?
    requires relayB.endpoint.Some? && relayB.answer.Some?
    ensures var callerFirst := Negotiation(r, roomId, Caller, sdpA, a, relayA);
            var thenCallee := Negotiation(callerFirst.room, roomId, Callee, sdpB, b, relayB);
            var calleeFirst := Negotiation(r, roomId, Callee, sdpB, b, relayB);
            var thenCaller := Negotiation(calleeFirst.room, roomId, Caller, sdpA, a, relayA);
            && thenCallee.room == thenCaller.room
            && thenCallee.room == RoomView(r.pipeline, Slot(relayA.endpoint, Some(a)), Slot(relayB.endpoint, Some(b)))
            && !HasConnect(callerFirst.effects) && !HasConnect(calleeFirst.effects)
            && HasConnect(thenCallee.effects) && HasConnect(thenCaller.effects)
  {
    var callerFirst := Negotiation(r, roomId, Caller, sdpA, a, relayA);
    var calleeFirst := Negotiation(r, roomId, Callee, sdpB, b, relayB);
    NegotiationConnects(r, roomId, Caller, sdpA, a, relayA);
    NegotiationConnects(r, roomId, Callee, sdpB, b, relayB);
    NegotiationConnects(callerFirst.room, roomId, Callee, sdpB, b, relayB);
    NegotiationConnects(calleeFirst.room, roomId, Caller, sdpA, a, relayA);
    assert callerFirst.room == RoomView(r.pipeline, Slot(relayA.endpoint, Some(a)), EmptySlot);
    assert calleeFirst.room == RoomView(r.pipeline, EmptySlot, Slot(relayB.endpoint, Some(b)));
  }

  /** A second offer on a side that has an endpoint reuses it. */
  lemma RepeatedOfferReusesEndpoint(r: RoomView, roomId: RoomId, side: Role, sdp1: string, sdp2: string,
                                    sender: SocketId, relay1: Relay, relay2: Relay)
    requires relay1.endpoint.Some? && r.pipeline.Some?
    ensures var first := Negotiation(r, roomId, side, sdp1, sender, relay1);
            var second := Negotiation(first.room, roomId, side, sdp2, sender, relay2);
            && SlotOf(first.room, side).webrtc.Some?
            && SlotOf(second.room, side).webrtc == SlotOf(first.room, side).webrtc
            && !CreatesEndpoint(second.effects)
  {
  }
}
