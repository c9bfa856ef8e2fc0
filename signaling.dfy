/**
 * The socket.io handlers of the signaling server as methods of a `Coordinator`
 * that owns the `rooms` map, the `pipelineLocks` map and an outbox of everything
 * the server sends to sockets and asks of the media relay.
 *
 * Rooms are objects: a handler that holds a room across an `await` keeps
 * updating that object even after another handler removed it from the map,
 * exactly as the server's closures do.
 *
 * `ensureRoom` is split at its waits: `EnsureRoomBegin` runs up to the pipeline
 * creation or the wait on another creation's lock, `CreationSucceeded` /
 * `CreationFailed` finish a creation, and `OfferResume` is the waiter's
 * continuation once the lock is gone. Any interleaving of handlers is a
 * sequence of these calls.
 */
module Signaling {
  import opened Wrappers
  import opened Rooms
  import opened RoomStore

  class Room {
    var pipeline: Option<Pipeline>
    var caller: Slot
    var callee: Slot

    /** `{ pipeline: null, caller: {}, callee: {} }` */
    constructor ()
      ensures View() == Shell
    {
      pipeline := None;
      caller := EmptySlot;
      callee := EmptySlot;
    }

    function View(): RoomView
      reads this
    {
      RoomView(pipeline, caller, callee)
    }

    method SetSlot(side: Role, s: Slot)
      modifies this
      ensures View() == WithSlot(old(View()), side, s)
    {
      if side == Caller {
        caller := s;
      } else {
        callee := s;
      }
    }

    /**
     * The body of the `sdp-offer` handler after `ensureRoom` returned this room:
     * the endpoint of `side` (created if absent), the offer, the sender's binding,
     * the answer and, when both endpoints exist, `connectBothWays`. A relay failure
     * is the handler's `catch`: `stop` to the sender, keeping what was stored.
     */
    method Negotiate(sender: SocketId, roomId: RoomId, side: Role, sdp: string, relay: Relay)
      returns (fx: seq<Effect>, answered: bool)
      modifies this
      ensures var n := Negotiation(old(View()), roomId, side, sdp, sender, relay);
              View() == n.room && fx == n.effects && answered == n.answered
    {
      ghost var r := View();
      var slot := if side == Caller then caller else callee;
      assert slot == SlotOf(r, side);
      fx := [];
      var ep: Endpoint;
      if slot.webrtc.Some? {
        ep := slot.webrtc.value;
      } else {
        if pipeline.None? {
          return [StopTo(sender, roomId)], false;
        }
        if relay.endpoint.None? {
          return [CreateEndpoint(pipeline.value), StopTo(sender, roomId)], false;
        }
        ep := relay.endpoint.value;
        SetSlot(side, slot.(webrtc := Some(ep)));
        fx := [CreateEndpoint(pipeline.value), AttachEndpoint(ep, sender)];
      }
      assert ResolveEndpoint(r, side, sender, relay) == EndpointReady(ep, fx);
      if relay.answer.None? {
        return fx + [ProcessOffer(ep, sdp), StopTo(sender, roomId)], false;
      }
      SetSlot(side, Slot(Some(ep), Some(sender)));
      fx := fx + [ProcessOffer(ep, sdp), GatherCandidates(ep), Emit(ToSocket(sender), SdpAnswer(roomId, relay.answer.value))];
      if caller.webrtc.Some? && callee.webrtc.Some? {
        fx := fx + ConnectBothWays(View(), relay.forwardConnected);
      }
      answered := true;
    }
  }

  datatype EnsureStep =
    | Rejected            // the handler stopped before any room work
    | Ready(room: Room)   // the room already had its pipeline
    | Waiting             // another creation holds the lock
    | Creating(room: Room)  // this call took the lock and asked for a pipeline

  predicate StepFor(step: EnsureStep, d: Decision) {
    && (step.Rejected? <==> d == ClientUnavailable)
    && (step.Ready? <==> d == UseExisting)
    && (step.Waiting? <==> d == AwaitLock)
    && (step.Creating? <==> d == CreateNew)
  }

  /** The `sdp-offer` payload check: a room id, an sdp, and a role that is exactly `caller` or `callee`. */
  predicate ValidOffer(roomId: RoomId, role: string, sdp: string) {
    roomId != "" && sdp != "" && (role == "caller" || role == "callee")
  }

  function SideOf(role: string): Role {
    if role == "caller" then Caller else Callee
  }

  class Coordinator {
    var rooms: map<RoomId, Room>
    /** The keys of `rooms` in insertion order, the order `rooms.entries()` visits them. */
    var order: seq<RoomId>
    var pipelineLocks: set<RoomId>
    var outbox: seq<Effect>
    /** What the handlers can observe of the rooms still in the map. */
    ghost var views: map<RoomId, RoomView>

    /** Everything but the agreement of `views` with the room objects. */
    ghost predicate Shape()
      reads this
    {
      && (forall a, b :: a in rooms && b in rooms && a != b ==> rooms[a] != rooms[b])
      && NoDup(order)
      && (forall k :: k in order <==> k in rooms)
      && views.Keys == rooms.Keys
    }

    ghost predicate Valid()
      reads this, rooms.Values
    {
      Shape() && forall k :: k in rooms ==> views[k] == rooms[k].View()
    }

    ghost function Abs(): Store
      reads this
    {
      Store(views, pipelineLocks)
    }

    constructor ()
      ensures Valid() && Abs() == Store(map[], {})
      ensures order == [] && outbox == []
    {
      rooms := map[];
      order := [];
      pipelineLocks := {};
      outbox := [];
      views := map[];
    }

    /** `join-room`: no room state at all; only socket.io membership and messages. */
    method Join(sender: SocketId, roomId: RoomId, role: string, hasAck: bool)
      modifies this`outbox
      ensures outbox == old(outbox) + JoinFx(sender, roomId, role, hasAck)
    {
      if roomId == "" {
        if hasAck {
          outbox := outbox + [Ack(false)];
        }
        return;
      }
      outbox := outbox + [JoinChannel(sender, roomId), Emit(ToRoomExcept(roomId, sender), PeerJoined(roomId, role))];
      if hasAck {
        outbox := outbox + [Ack(true)];
      }
    }

    /** `rooms.set(roomId, { pipeline: null, caller: {}, callee: {} })`: a new entry goes last in iteration order. */
    method AddShell(roomId: RoomId)
      requires Valid() && roomId !in rooms
      modifies this`rooms, this`order, this`views
      ensures Valid()
      ensures views == old(views)[roomId := Shell]
      ensures rooms.Keys == old(rooms.Keys) + {roomId}
      ensures forall k :: k in old(rooms) ==> rooms[k] == old(rooms[k])
      ensures order == old(order) + [roomId]
    {
      var shell := new Room();
      rooms := rooms[roomId := shell];
      order := order + [roomId];
      views := views[roomId := Shell];
    }

    /** `rooms.delete(roomId)`: the entry leaves the map and the iteration order. */
    method DeleteEntry(roomId: RoomId)
      requires Valid()
      modifies this`rooms, this`order, this`views
      ensures Valid()
      ensures views == old(views) - {roomId}
      ensures rooms == old(rooms) - {roomId}
      ensures order == Without(old(order), roomId)
    {
      rooms := rooms - {roomId};
      order := Without(order, roomId);
      views := views - {roomId};
    }

    /** `ensureRoom` up to its first wait. */
    method EnsureRoomBegin(roomId: RoomId, clientOk: bool) returns (step: EnsureStep)
      requires Valid()
      modifies this`rooms, this`order, this`pipelineLocks, this`outbox, this`views
      ensures Valid()
      ensures Abs() == Begin(old(Abs()), roomId, clientOk)
      ensures StepFor(step, Decide(old(Abs()), roomId, clientOk))
      ensures step.Ready? ==> roomId in old(rooms) && step.room == old(rooms[roomId])
      ensures step.Creating? ==> roomId in rooms && step.room == rooms[roomId]
      ensures forall k :: k in old(rooms) ==> k in rooms && rooms[k] == old(rooms[k])
      ensures order == if roomId in rooms && roomId !in old(rooms) then old(order) + [roomId] else old(order)
      ensures outbox == old(outbox) + if step.Creating? then [CreatePipeline(roomId)] else []
    {
      if !clientOk {
        return Rejected;
      }
      if roomId in rooms && rooms[roomId].pipeline.Some? {
        return Ready(rooms[roomId]);
      }
      if roomId !in rooms {
        AddShell(roomId);
      }
      var room := rooms[roomId];
      if roomId in pipelineLocks {
        return Waiting;
      }
      pipelineLocks := pipelineLocks + {roomId};
      outbox := outbox + [CreatePipeline(roomId)];
      return Creating(room);
    }

    /** The creator's `room.pipeline = ...` and the `finally` that drops the lock. */
    method CreationSucceeded(roomId: RoomId, room: Room, p: Pipeline)
      requires Valid()
      modifies this`pipelineLocks, this`views, room
      ensures Valid()
      ensures room.View() == old(room.View()).(pipeline := Some(p))
      ensures pipelineLocks == old(pipelineLocks) - {roomId}
      ensures rooms == old(rooms)
      ensures roomId in rooms && rooms[roomId] == room ==> views == old(views)[roomId := room.View()]
      ensures room !in rooms.Values ==> views == old(views)
    {
      room.pipeline := Some(p);
      pipelineLocks := pipelineLocks - {roomId};
      Resync(room);
    }

    /** The creator's `catch` (delete the entry) and `finally` (drop the lock), then the handler's `stop`. */
    method CreationFailed(sender: SocketId, roomId: RoomId)
      requires Valid()
      modifies this`rooms, this`order, this`pipelineLocks, this`outbox, this`views
      ensures Valid()
      ensures Abs() == Store(old(Abs()).rooms - {roomId}, old(pipelineLocks) - {roomId})
      ensures order == Without(old(order), roomId)
      ensures outbox == old(outbox) + [StopTo(sender, roomId)]
    {
      DeleteEntry(roomId);
      pipelineLocks := pipelineLocks - {roomId};
      outbox := outbox + [StopTo(sender, roomId)];
    }

    /** `sdp-offer` up to the first wait: the payload check, then `ensureRoom`. */
    method OfferBegin(sender: SocketId, roomId: RoomId, role: string, sdp: string, clientOk: bool) returns (step: EnsureStep)
      requires Valid()
      modifies this`rooms, this`order, this`pipelineLocks, this`outbox, this`views
      ensures Valid()
      ensures !ValidOffer(roomId, role, sdp) ==>
                step.Rejected? && rooms == old(rooms) && order == old(order) && Abs() == old(Abs()) &&
                outbox == old(outbox) + [StopTo(sender, roomId)]
      ensures ValidOffer(roomId, role, sdp) ==>
                Abs() == Begin(old(Abs()), roomId, clientOk) &&
                StepFor(step, Decide(old(Abs()), roomId, clientOk)) &&
                outbox == old(outbox) + match step {
                  case Rejected => [StopTo(sender, roomId)]
                  case Creating(_) => [CreatePipeline(roomId)]
                  case _ => []
                }
      ensures forall k :: k in old(rooms) ==> k in rooms && rooms[k] == old(rooms[k])
      ensures order == if roomId in rooms && roomId !in old(rooms) then old(order) + [roomId] else old(order)
      ensures step.Ready? ==> roomId in old(rooms) && step.room == old(rooms[roomId])
      ensures step.Creating? ==> roomId in rooms && step.room == rooms[roomId]
    {
      if !ValidOffer(roomId, role, sdp) {
        outbox := outbox + [StopTo(sender, roomId)];
        return Rejected;
      }
      step := EnsureRoomBegin(roomId, clientOk);
      if step.Rejected? {
        outbox := outbox + [StopTo(sender, roomId)];
      }
    }

    /** The rest of `sdp-offer` on the room `ensureRoom` returned, whether it is still in the map or not. */
    method OfferNegotiate(sender: SocketId, roomId: RoomId, side: Role, sdp: string, room: Room, relay: Relay)
      returns (answered: bool)
      requires Valid()
      modifies this`outbox, this`views, room
      ensures Valid()
      ensures var n := Negotiation(old(room.View()), roomId, side, sdp, sender, relay);
              room.View() == n.room && outbox == old(outbox) + n.effects && answered == n.answered
      ensures rooms == old(rooms) && pipelineLocks == old(pipelineLocks)
      ensures roomId in rooms && rooms[roomId] == room ==> views == old(views)[roomId := room.View()]
      ensures room !in rooms.Values ==> views == old(views)
    {
      var fx;
      fx, answered := room.Negotiate(sender, roomId, side, sdp, relay);
      outbox := outbox + fx;
      Resync(room);
    }

    /** Brings the ghost `views` back in line after `room`, and only `room`, changed in place. */
    method Resync(room: Room)
      requires Shape()
      requires forall k :: k in rooms && rooms[k] != room ==> views[k] == rooms[k].View()
      modifies this`views
      ensures Valid()
      ensures forall k :: k in rooms && rooms[k] == room ==> views == old(views)[k := room.View()]
      ensures room !in rooms.Values ==> views == old(views)
    {
      if room in rooms.Values {
        ghost var k :| k in rooms && rooms[k] == room;
        views := views[k := room.View()];
      }
    }

    /** A waiter's continuation: `return rooms.get(roomId)` after the lock, then the rest of `sdp-offer`. */
    method OfferResume(sender: SocketId, roomId: RoomId, side: Role, sdp: string, relay: Relay)
      returns (answered: bool)
      requires Valid()
      modifies this`outbox, this`views, rooms.Values
      ensures Valid()
      ensures rooms == old(rooms) && pipelineLocks == old(pipelineLocks)
      ensures roomId !in old(rooms) ==>
                !answered && Abs() == old(Abs()) && outbox == old(outbox) + [StopTo(sender, roomId)]
      ensures roomId in old(rooms) ==>
                var n := Negotiation(old(Abs()).rooms[roomId], roomId, side, sdp, sender, relay);
                Abs() == Store(old(Abs()).rooms[roomId := n.room], pipelineLocks) &&
                outbox == old(outbox) + n.effects && answered == n.answered
    {
      if roomId !in rooms {
        outbox := outbox + [StopTo(sender, roomId)];
        return false;
      }
      answered := OfferNegotiate(sender, roomId, side, sdp, rooms[roomId], relay);
    }

    /** `ice-candidate`: add the candidate to the first side bound to the sender that has an endpoint. */
    method IceCandidate(sender: SocketId, roomId: RoomId, candidate: Option<Candidate>)
      requires Valid()
      modifies this`outbox
      ensures outbox == old(outbox) + IceFx(Abs().rooms, roomId, sender, candidate)
    {
      if roomId !in rooms || candidate.None? {
        return;
      }
      var room := rooms[roomId];
      var sides := [Caller, Callee];
      var i := 0;
      while i < |sides|
        invariant 0 <= i <= |sides|
        invariant outbox == old(outbox)
        invariant forall j :: 0 <= j < i ==>
                    !(BoundTo(SlotOf(room.View(), sides[j]), sender) && SlotOf(room.View(), sides[j]).webrtc.Some?)
      {
        var slot := if sides[i] == Caller then room.caller else room.callee;
        assert slot == SlotOf(room.View(), sides[i]);
        if BoundTo(slot, sender) && slot.webrtc.Some? {
          assert i == 1 ==> SlotOf(room.View(), sides[0]) == room.caller;
          outbox := outbox + [AddIceCandidate(slot.webrtc.value, candidate.value)];
          return;
        }
        i := i + 1;
      }
      assert SlotOf(room.View(), sides[0]) == room.caller && SlotOf(room.View(), sides[1]) == room.callee;
    }

    /** `releaseRoom`: nothing while a side still has a socket; else release both endpoints and the pipeline and drop the entry. */
    method ReleaseRoom(roomId: RoomId)
      requires Valid()
      modifies this`rooms, this`order, this`outbox, this`views
      ensures Valid()
      ensures Abs() == Release(old(Abs()), roomId)
      ensures outbox == old(outbox) + ReleaseFx(old(Abs()).rooms, roomId)
      ensures rooms == if roomId in old(rooms) && Idle(old(views)[roomId]) then old(rooms) - {roomId} else old(rooms)
      ensures order == if roomId in rooms then old(order) else Without(old(order), roomId)
    {
      if roomId !in rooms {
        return;
      }
      var room := rooms[roomId];
      if room.caller.socketId.Some? || room.callee.socketId.Some? {
        return;
      }
      outbox := outbox + ReleaseEffects(room.View());
      DeleteEntry(roomId);
    }

    /** `stop{roomId}`: tell the whole room, unbind the sender there, and try `releaseRoom`. */
    method Stop(sender: SocketId, roomId: RoomId)
      requires Valid()
      modifies this`rooms, this`order, this`outbox, this`views, rooms.Values
      ensures Valid()
      ensures Abs() == StopStore(old(Abs()), roomId, sender)
      ensures outbox == old(outbox) + StopFx(old(Abs()).rooms, roomId, sender)
      ensures forall k :: k in rooms ==> k in old(rooms) && rooms[k] == old(rooms)[k]
      ensures order == if roomId in old(rooms) && roomId !in rooms then Without(old(order), roomId) else old(order)
      ensures roomId != "" && roomId in old(rooms) ==> old(rooms)[roomId].View() == Unbind(old(views)[roomId], sender)
    {
      if roomId == "" {
        return;
      }
      outbox := outbox + [Emit(ToRoom(roomId), StopMsg(roomId))];
      if roomId !in rooms {
        return;
      }
      var _ := UnbindSocket(sender, roomId);
      ghost var unbound := views;
      ReleaseRoom(roomId);
      AppendAssoc(old(outbox), [Emit(ToRoom(roomId), StopMsg(roomId))], ReleaseFx(unbound, roomId));
    }

    /** The `socketId === socket.id` checks of `stop` and `disconnect`: clear every side of room `rid` bound to `sender`. */
    method UnbindSocket(sender: SocketId, rid: RoomId) returns (changed: bool)
      requires Valid() && rid in rooms
      modifies this`views, rooms[rid]
      ensures Valid()
      ensures changed <==> Touches(old(views)[rid], sender)
      ensures views == old(views)[rid := Unbind(old(views)[rid], sender)]
    {
      var room := rooms[rid];
      var caller, callee := room.caller, room.callee;
      changed := false;
      if BoundTo(caller, sender) {
        caller := caller.(socketId := None);
        changed := true;
      }
      if BoundTo(callee, sender) {
        callee := callee.(socketId := None);
        changed := true;
      }
      room.caller, room.callee := caller, callee;
      Resync(room);
    }

    /** One iteration of the `disconnect` loop: unbind the socket in room `rid`; `releaseRoom` if that changed it. */
    method LeaveRoom(sender: SocketId, rid: RoomId, ghost keys: seq<RoomId>)
      requires Valid() && rid in rooms
      requires order == KeepOnly(keys, rooms.Keys)
      modifies this`rooms, this`order, this`outbox, this`views, rooms[rid]
      ensures Valid()
      ensures rooms == if Dropped(old(views)[rid], sender) then old(rooms) - {rid} else old(rooms)
      ensures order == KeepOnly(keys, rooms.Keys)
      ensures outbox == old(outbox) + if Dropped(old(views)[rid], sender) then ReleaseEffects(old(views)[rid]) else []
      ensures views == if Dropped(old(views)[rid], sender) then old(views) - {rid}
                       else old(views)[rid := Unbind(old(views)[rid], sender)]
      ensures old(rooms)[rid].View() == Unbind(old(views)[rid], sender)
    {
      ghost var v, keep, out := views, rooms.Keys, outbox;
      var changed := UnbindSocket(sender, rid);
      assert Dropped(v[rid], sender) <==> changed && Idle(views[rid]);
      if changed {
        ReleaseRoom(rid);
        if Idle(Unbind(v[rid], sender)) {
          ReleaseIgnoresBindings(v[rid], sender);
          assert outbox == out + ReleaseEffects(v[rid]);
          assert rooms.Keys == keep - {rid};
          KeepOnlyWithout(keys, keep, rid);
          assert v[rid := Unbind(v[rid], sender)] - {rid} == v - {rid};
        }
      }
    }

    /** The body of the `disconnect` loop at position `i` of the key snapshot, with its bookkeeping. */
    method DisconnectVisit(sender: SocketId, keys: seq<RoomId>, i: nat, ghost v: map<RoomId, RoomView>,
                           ghost done: set<RoomId>, ghost base: seq<Effect>, ghost objs: map<RoomId, Room>)
      requires Valid() && i < |keys| && keys[i] in rooms && keys[i] in v && keys[i] !in done
      requires forall k :: k in rooms ==> k in objs && rooms[k] == objs[k]
      requires forall a, b :: a in objs && b in objs && a != b ==> objs[a] != objs[b]
      requires forall k :: k in objs && k in v ==> objs[k].View() == if k in done then Unbind(v[k], sender) else v[k]
      requires forall k :: k in done <==> k in keys[..i]
      requires views == DisconnectVisited(v, done, sender)
      requires outbox == base + DisconnectFx(keys[..i], v, sender)
      requires order == KeepOnly(keys, rooms.Keys)
      modifies this`rooms, this`order, this`outbox, this`views, rooms[keys[i]]
      ensures Valid()
      ensures forall k :: k in rooms ==> k in old(rooms) && rooms[k] == old(rooms)[k]
      ensures forall k :: k in done + {keys[i]} <==> k in keys[..i + 1]
      ensures views == DisconnectVisited(v, done + {keys[i]}, sender)
      ensures outbox == base + DisconnectFx(keys[..i + 1], v, sender)
      ensures order == KeepOnly(keys, rooms.Keys)
      ensures old(rooms)[keys[i]].View() == Unbind(v[keys[i]], sender)
      ensures forall k :: k in objs && k in v ==> objs[k].View() == if k in done + {keys[i]} then Unbind(v[k], sender) else v[k]
    {
      var rid := keys[i];
      LeaveRoom(sender, rid, keys);
      DisconnectVisitOne(v, done, sender, rid);
      DisconnectFxStep(keys, i, v, sender);
      AppendAssoc(base, DisconnectFx(keys[..i], v, sender), if Dropped(v[rid], sender) then ReleaseEffects(v[rid]) else []);
      PrefixStep(keys, i);
    }

    /** `disconnect`: in every room, in map order, unbind the socket and `releaseRoom` the rooms it changed. */
    method Disconnect(sender: SocketId)
      requires Valid()
      modifies this`rooms, this`order, this`outbox, this`views, rooms.Values
      ensures Valid()
      ensures Abs() == DisconnectStore(old(Abs()), sender)
      ensures outbox == old(outbox) + DisconnectFx(old(order), old(Abs()).rooms, sender)
      ensures order == KeepOnly(old(order), rooms.Keys)
      ensures forall k :: k in rooms ==> k in old(rooms) && rooms[k] == old(rooms)[k]
      ensures forall k :: k in old(rooms) ==> old(rooms)[k].View() == Unbind(old(views)[k], sender)
    {
      var keys := order;
      KeepOnlyAll(keys, rooms.Keys);
      VisitAll(sender, keys, views, rooms, outbox);
    }

    /** The `disconnect` loop over the key snapshot `keys`, from the state `v`, `objs`, `base` it starts in. */
    method VisitAll(sender: SocketId, keys: seq<RoomId>, ghost v: map<RoomId, RoomView>,
                    ghost objs: map<RoomId, Room>, ghost base: seq<Effect>)
      requires Valid() && NoDup(keys) && (forall k :: k in keys <==> k in rooms)
      requires views == v && rooms == objs && outbox == base && order == KeepOnly(keys, rooms.Keys)
      modifies this`rooms, this`order, this`outbox, this`views, objs.Values
      ensures Valid()
      ensures views == DisconnectRooms(v, sender)
      ensures outbox == base + DisconnectFx(keys, v, sender)
      ensures order == KeepOnly(keys, rooms.Keys)
      ensures forall k :: k in rooms ==> k in objs && rooms[k] == objs[k]
      ensures forall k :: k in objs && k in v ==> objs[k].View() == Unbind(v[k], sender)
    {
      ghost var done: set<RoomId> := {};
      var i := 0;
      while i < |keys|
        invariant 0 <= i <= |keys|
        invariant Valid()
        invariant forall k :: k in rooms ==> k in objs && rooms[k] == objs[k]
        invariant forall k :: k in done <==> k in keys[..i]
        invariant views == DisconnectVisited(v, done, sender)
        invariant outbox == base + DisconnectFx(keys[..i], v, sender)
        invariant order == KeepOnly(keys, rooms.Keys)
        invariant forall k :: k in objs && k in v ==> objs[k].View() == if k in done then Unbind(v[k], sender) else v[k]
      {
        NoDupPrefix(keys, i);
        DisconnectVisit(sender, keys, i, v, done, base, objs);
        done := done + {keys[i]};
        i := i + 1;
      }
      assert keys[..i] == keys;
      DisconnectVisitedAll(v, done, sender);
    }
  }

  lemma AppendAssoc<T>(a: seq<T>, b: seq<T>, c: seq<T>)
    ensures (a + b) + c == a + (b + c)
  {
  }
}
