/**
 * The signaling server's two maps seen as values: `rooms` (room id to room) and
 * `pipelineLocks` (the room ids whose pipeline creation is in flight), and the
 * transitions the handlers make on them. The class in signaling.dfy is proved
 * against these functions.
 */
module RoomStore {
  import opened Wrappers
  import opened Rooms

  datatype Store = Store(rooms: map<RoomId, RoomView>, locks: set<RoomId>)

  // ---------------------------------------------------------------------------
  // ensureRoom, up to its first wait

  datatype Decision =
    | ClientUnavailable   // getKurentoClient() rejected: ensureRoom throws before touching the maps
    | UseExisting         // the room already has a pipeline
    | AwaitLock           // another creation is in flight: wait for it
    | CreateNew           // take the lock and ask the relay for a pipeline

  function Decide(st: Store, id: RoomId, clientOk: bool): (d: Decision)
    ensures d == UseExisting <==> clientOk && id in st.rooms && st.rooms[id].pipeline.Some?
    ensures d == AwaitLock <==> clientOk && id in st.locks && !(id in st.rooms && st.rooms[id].pipeline.Some?)
    ensures d == CreateNew <==> clientOk && id !in st.locks && !(id in st.rooms && st.rooms[id].pipeline.Some?)
  {
    if !clientOk then ClientUnavailable
    else if id in st.rooms && st.rooms[id].pipeline.Some? then UseExisting
    else if id in st.locks then AwaitLock
    else CreateNew
  }

  /** The maps after `ensureRoom` reaches its first wait: a shell entry if none, the lock if it creates. */
  function Begin(st: Store, id: RoomId, clientOk: bool): (st': Store)
    ensures Decide(st, id, clientOk) in {ClientUnavailable, UseExisting} ==> st' == st
    ensures Decide(st, id, clientOk) in {AwaitLock, CreateNew} ==>
              id in st'.rooms && st'.rooms == (if id in st.rooms then st.rooms else st.rooms[id := Shell])
    ensures st'.locks == if Decide(st, id, clientOk) == CreateNew then st.locks + {id} else st.locks
  {
    match Decide(st, id, clientOk)
    case ClientUnavailable => st
    case UseExisting => st
    case AwaitLock => st.(rooms := if id in st.rooms then st.rooms else st.rooms[id := Shell])
    case CreateNew => Store(if id in st.rooms then st.rooms else st.rooms[id := Shell], st.locks + {id})
  }

  /** The room id cannot start a creation: one is in flight or the pipeline exists. */
  predicate CreationBlocked(st: Store, id: RoomId) {
    id in st.locks || (id in st.rooms && st.rooms[id].pipeline.Some?)
  }

  /** Number of pipeline creations for `id` started by a run of ensureRoom calls (any room ids) before any completes. */
  function CreationsFor(st: Store, id: RoomId, calls: seq<(RoomId, bool)>): nat
    decreases |calls|
  {
    if calls == [] then 0
    else
      (if calls[0].0 == id && Decide(st, id, calls[0].1) == CreateNew then 1 else 0)
      + CreationsFor(Begin(st, calls[0].0, calls[0].1), id, calls[1..])
  }

  lemma BeginKeepsBlocked(st: Store, id: RoomId, other: RoomId, clientOk: bool)
    requires CreationBlocked(st, id)
    ensures CreationBlocked(Begin(st, other, clientOk), id)
  {
  }

  lemma {:induction false} NoCreationWhileBlocked(st: Store, id: RoomId, calls: seq<(RoomId, bool)>)
    requires CreationBlocked(st, id)
    ensures CreationsFor(st, id, calls) == 0
    decreases |calls|
  {
    if calls != [] {
      BeginKeepsBlocked(st, id, calls[0].0, calls[0].1);
      NoCreationWhileBlocked(Begin(st, calls[0].0, calls[0].1), id, calls[1..]);
    }
  }

  /**
   * Single flight: however many ensureRoom calls for however many rooms start
   * before a creation completes, at most one of them creates a pipeline for `id`,
   * and none does if a creation is in flight or the pipeline already exists.
   */
  lemma {:induction false} SingleFlight(st: Store, id: RoomId, calls: seq<(RoomId, bool)>)
    ensures CreationsFor(st, id, calls) <= 1
    ensures CreationBlocked(st, id) ==> CreationsFor(st, id, calls) == 0
    decreases |calls|
  {
    if CreationBlocked(st, id) {
      NoCreationWhileBlocked(st, id, calls);
    } else if calls != [] {
      var next := Begin(st, calls[0].0, calls[0].1);
      if calls[0].0 == id && Decide(st, id, calls[0].1) == CreateNew {
        assert CreationBlocked(next, id);
        NoCreationWhileBlocked(next, id, calls[1..]);
      } else {
        SingleFlight(next, id, calls[1..]);
      }
    }
  }

  // ---------------------------------------------------------------------------
  // releaseRoom, stop, disconnect

  /** `releaseRoom(id)`: remove the room when it exists and neither side has a socket; the locks are not looked at. */
  function Release(st: Store, id: RoomId): (st': Store)
    ensures st'.locks == st.locks
    ensures id in st'.rooms <==> id in st.rooms && !Idle(st.rooms[id])
    ensures forall k :: k != id ==> (k in st'.rooms <==> k in st.rooms)
    ensures forall k :: k in st'.rooms ==> k in st.rooms && st'.rooms[k] == st.rooms[k]
  {
    if id in st.rooms && Idle(st.rooms[id]) then st.(rooms := st.rooms - {id}) else st
  }

  /** The relay calls `releaseRoom(id)` makes. */
  function ReleaseFx(v: map<RoomId, RoomView>, id: RoomId): (fx: seq<Effect>)
    ensures forall i :: 0 <= i < |fx| ==> IsRelease(fx[i])
    ensures fx != [] ==> id in v && Idle(v[id])
    ensures id in v && Idle(v[id]) && v[id].pipeline.Some? ==> ReleasePipeline(v[id].pipeline.value) in fx
  {
    if id in v && Idle(v[id]) then ReleaseEffects(v[id]) else []
  }

  /** Releasing twice is the same as releasing once, and the second call asks the relay for nothing. */
  lemma ReleaseIdempotent(st: Store, id: RoomId)
    ensures Release(Release(st, id), id) == Release(st, id)
    ensures ReleaseFx(Release(st, id).rooms, id) == []
  {
  }

  /** `stop{roomId}` from `sender`: unbind the sender in that room, then `releaseRoom`. */
  function StopStore(st: Store, id: RoomId, sender: SocketId): (st': Store)
    ensures st'.locks == st.locks
    ensures id != "" && id in st'.rooms ==> !Touches(st'.rooms[id], sender)
    ensures id in st'.rooms ==> id in st.rooms && st'.rooms[id].pipeline == st.rooms[id].pipeline
    ensures forall k :: k != id ==> (k in st'.rooms <==> k in st.rooms)
    ensures forall k :: k != id && k in st.rooms ==> st'.rooms[k] == st.rooms[k]
  {
    if id == "" || id !in st.rooms then st
    else Release(st.(rooms := st.rooms[id := Unbind(st.rooms[id], sender)]), id)
  }

  /** What `stop` emits: `stop` to the whole socket.io room, then the relay releases. */
  function StopFx(v: map<RoomId, RoomView>, id: RoomId, sender: SocketId): (fx: seq<Effect>)
    ensures fx == [] <==> id == ""
    ensures fx != [] ==> fx[0] == Emit(ToRoom(id), StopMsg(id))
    ensures forall i :: 1 <= i < |fx| ==> IsRelease(fx[i])
  {
    if id == "" then []
    else [Emit(ToRoom(id), StopMsg(id))] + (if id in v then ReleaseFx(v[id := Unbind(v[id], sender)], id) else [])
  }

  /**
   * No premature teardown: when another socket is still bound in the room, a stop
   * keeps the room, its pipeline and both endpoints, and only unbinds the sender.
   */
  lemma NoPrematureTeardown(st: Store, id: RoomId, sender: SocketId, other: SocketId)
    requires id != "" && id in st.rooms && other != sender && Touches(st.rooms[id], other)
    ensures var st' := StopStore(st, id, sender);
            && id in st'.rooms
            && st'.rooms[id] == Unbind(st.rooms[id], sender)
            && st'.rooms[id].pipeline == st.rooms[id].pipeline
            && Touches(st'.rooms[id], other)
            && st'.locks == st.locks
    ensures forall i :: 0 <= i < |StopFx(st.rooms, id, sender)| ==> !IsRelease(StopFx(st.rooms, id, sender)[i])
  {
    var u := Unbind(st.rooms[id], sender);
    assert !Idle(u);
    assert StopStore(st, id, sender) == st.(rooms := st.rooms[id := u]);
  }

  /** The last bound socket leaving tears the room down and releases exactly its endpoints and pipeline. */
  lemma LastLeaveReleases(st: Store, id: RoomId, sender: SocketId)
    requires id != "" && id in st.rooms && Idle(Unbind(st.rooms[id], sender))
    ensures id !in StopStore(st, id, sender).rooms
    ensures StopFx(st.rooms, id, sender) == [Emit(ToRoom(id), StopMsg(id))] + ReleaseEffects(st.rooms[id])
  {
  }

  /** A second stop from the same socket releases nothing again. */
  lemma StopTwiceReleasesOnce(st: Store, id: RoomId, sender: SocketId)
    ensures var once := StopStore(st, id, sender);
            && StopStore(once, id, sender) == once
            && forall i :: 0 <= i < |StopFx(once.rooms, id, sender)| ==> !IsRelease(StopFx(once.rooms, id, sender)[i])
  {
    var once := StopStore(st, id, sender);
    if id != "" && id in once.rooms {
      assert once.rooms[id] == Unbind(st.rooms[id], sender);
      assert Unbind(once.rooms[id], sender) == once.rooms[id];
      assert once.rooms[id := once.rooms[id]] == once.rooms;
    }
  }

  /** A room the disconnecting socket was bound in and that nobody else holds: `releaseRoom` removes it. */
  predicate Dropped(r: RoomView, sender: SocketId) {
    Touches(r, sender) && Idle(Unbind(r, sender))
  }

  /** `disconnect`: every room is unbound from the socket; the rooms it changed are released if now idle. */
  function DisconnectRooms(v: map<RoomId, RoomView>, sender: SocketId): (w: map<RoomId, RoomView>)
    ensures forall k :: k in w <==> k in v && !Dropped(v[k], sender)
    ensures forall k :: k in w ==> w[k] == Unbind(v[k], sender) && !Touches(w[k], sender)
    ensures forall k :: k in w && Touches(v[k], sender) ==> !Idle(w[k])
  {
    map k | k in v && !Dropped(v[k], sender) :: Unbind(v[k], sender)
  }

  function DisconnectStore(st: Store, sender: SocketId): (st': Store)
    ensures st'.locks == st.locks
    ensures forall k :: k in st'.rooms ==> !Touches(st'.rooms[k], sender)
    ensures forall k :: k in st'.rooms ==> k in st.rooms && st'.rooms[k].pipeline == st.rooms[k].pipeline
  {
    st.(rooms := DisconnectRooms(st.rooms, sender))
  }

  /** The rooms once the `disconnect` loop has visited the room ids in `done`. */
  function DisconnectVisited(v: map<RoomId, RoomView>, done: set<RoomId>, sender: SocketId): (w: map<RoomId, RoomView>)
    ensures forall k :: k in w <==> k in v && !(k in done && Dropped(v[k], sender))
    ensures forall k :: k in w && k !in done ==> w[k] == v[k]
  {
    map k | k in v && !(k in done && Dropped(v[k], sender)) :: if k in done then Unbind(v[k], sender) else v[k]
  }

  /** Visiting one more room drops it or unbinds the socket there, and leaves every other room as it was. */
  lemma DisconnectVisitOne(v: map<RoomId, RoomView>, done: set<RoomId>, sender: SocketId, k: RoomId)
    requires k in v && k !in done
    ensures DisconnectVisited(v, done + {k}, sender) ==
              if Dropped(v[k], sender) then DisconnectVisited(v, done, sender) - {k}
              else DisconnectVisited(v, done, sender)[k := Unbind(v[k], sender)]
  {
    var before, after := DisconnectVisited(v, done, sender), DisconnectVisited(v, done + {k}, sender);
    if Dropped(v[k], sender) {
      assert after.Keys == before.Keys - {k};
    } else {
      assert after.Keys == before.Keys + {k};
    }
  }

  /** Once every room has been visited the loop has computed `DisconnectRooms`. */
  lemma DisconnectVisitedAll(v: map<RoomId, RoomView>, done: set<RoomId>, sender: SocketId)
    requires forall k :: k in v ==> k in done
    ensures DisconnectVisited(v, done, sender) == DisconnectRooms(v, sender)
  {
    assert DisconnectVisited(v, done, sender).Keys == DisconnectRooms(v, sender).Keys;
  }

  /** `DisconnectFx` grows by the releases of the room visited next. */
  lemma DisconnectFxStep(keys: seq<RoomId>, i: nat, v: map<RoomId, RoomView>, sender: SocketId)
    requires i < |keys| && keys[i] in v
    ensures DisconnectFx(keys[..i + 1], v, sender) ==
              DisconnectFx(keys[..i], v, sender) + if Dropped(v[keys[i]], sender) then ReleaseEffects(v[keys[i]]) else []
  {
    assert keys[..i + 1][..i] == keys[..i];
  }

  /** The relay releases of `disconnect`, in the map's iteration order `keys`. */
  function DisconnectFx(keys: seq<RoomId>, v: map<RoomId, RoomView>, sender: SocketId): (fx: seq<Effect>)
    ensures forall i :: 0 <= i < |fx| ==> IsRelease(fx[i])
    decreases |keys|
  {
    if keys == [] then []
    else
      var k := keys[|keys| - 1];
      DisconnectFx(keys[..|keys| - 1], v, sender)
      + (if k in v && Dropped(v[k], sender) then ReleaseEffects(v[k]) else [])
  }

  /** The endpoints `disconnect` releases are exactly those of the rooms it drops. */
  lemma {:induction false} DisconnectReleasesDroppedEndpoints(keys: seq<RoomId>, v: map<RoomId, RoomView>, sender: SocketId, e: Endpoint)
    ensures ReleaseEndpoint(e) in DisconnectFx(keys, v, sender) <==>
              exists k :: k in keys && k in v && Dropped(v[k], sender) &&
                          (v[k].caller.webrtc == Some(e) || v[k].callee.webrtc == Some(e))
    decreases |keys|
  {
    if keys != [] {
      var init, k := keys[..|keys| - 1], keys[|keys| - 1];
      DisconnectReleasesDroppedEndpoints(init, v, sender, e);
      assert keys == init + [k];
      assert forall j :: j in keys <==> j in init || j == k;
    }
  }

  /** The pipelines a disconnect releases are exactly those of the rooms it drops. */
  lemma {:induction false} DisconnectReleasesDroppedPipelines(keys: seq<RoomId>, v: map<RoomId, RoomView>, sender: SocketId, p: Pipeline)
    ensures ReleasePipeline(p) in DisconnectFx(keys, v, sender) <==>
              exists k :: k in keys && k in v && Dropped(v[k], sender) && v[k].pipeline == Some(p)
    decreases |keys|
  {
    if keys != [] {
      var init, k := keys[..|keys| - 1], keys[|keys| - 1];
      DisconnectReleasesDroppedPipelines(init, v, sender, p);
      assert keys == init + [k];
      assert forall j :: j in keys <==> j in init || j == k;
    }
  }

  /**
   * Disconnect reconciliation: in every room the socket was bound in, `disconnect`
   * leaves what a `stop` from it for that room would leave; every other room is untouched.
   */
  lemma DisconnectActsLikeStopPerRoom(st: Store, sender: SocketId, k: RoomId)
    requires k in st.rooms
    ensures var d := DisconnectStore(st, sender);
            var s := StopStore(st, k, sender);
            && (Touches(st.rooms[k], sender) && k != "" ==>
                  (k in d.rooms <==> k in s.rooms) && (k in d.rooms ==> d.rooms[k] == s.rooms[k]))
            && (!Touches(st.rooms[k], sender) ==> k in d.rooms && d.rooms[k] == st.rooms[k])
  {
  }

  /** `stop` differs from `disconnect` on a room the sender is not bound in: stop still releases it when it is idle. */
  lemma StopReleasesIdleRoomOfAnySender(st: Store, id: RoomId, sender: SocketId)
    requires id != "" && id in st.rooms && Idle(st.rooms[id])
    ensures id !in StopStore(st, id, sender).rooms
    ensures id in DisconnectStore(st, sender).rooms
  {
  }

  /** A second disconnect of the same socket changes nothing. */
  lemma DisconnectIdempotent(st: Store, sender: SocketId)
    ensures DisconnectStore(DisconnectStore(st, sender), sender) == DisconnectStore(st, sender)
  {
    var once := DisconnectRooms(st.rooms, sender);
    var twice := DisconnectRooms(once, sender);
    assert forall k :: k in once ==> !Dropped(once[k], sender) && Unbind(once[k], sender) == once[k];
    assert twice == once;
  }

  // ---------------------------------------------------------------------------
  // ICE candidates and join

  /** `ice-candidate{roomId, candidate}`: dropped without a room or candidate, else added to the sender's endpoint. */
  function IceFx(v: map<RoomId, RoomView>, id: RoomId, sender: SocketId, candidate: Option<Candidate>): (fx: seq<Effect>)
    ensures |fx| <= 1
    ensures |fx| == 1 <==> id in v && candidate.Some? && IceTarget(v[id], sender).Some?
    ensures |fx| == 1 ==> fx[0] == AddIceCandidate(IceTarget(v[id], sender).value, candidate.value)
  {
    if id !in v || candidate.None? then []
    else match IceTarget(v[id], sender)
      case None => []
      case Some(e) => [AddIceCandidate(e, candidate.value)]
  }

  /**
   * `join-room{roomId, role}`: no room state and no relay call; with a room id the
   * socket joins the socket.io room and the others hear of it. `hasAck` says whether
   * the client passed an acknowledgement callback (`ack?.(...)` answers only then).
   */
  function JoinFx(sender: SocketId, id: RoomId, role: string, hasAck: bool): (fx: seq<Effect>)
    ensures forall e :: e in fx ==> e.Ack? || e.Emit? || e.JoinChannel?
    ensures hasAck ==> |fx| >= 1 && fx[|fx| - 1] == Ack(id != "")
    ensures !hasAck ==> forall e :: e in fx ==> !e.Ack?
    ensures id == "" ==> forall e :: e in fx ==> e.Ack?
    ensures id != "" ==> JoinChannel(sender, id) in fx && Emit(ToRoomExcept(id, sender), PeerJoined(id, role)) in fx
  {
    var ack := if hasAck then [Ack(id != "")] else [];
    if id == "" then ack
    else [JoinChannel(sender, id), Emit(ToRoomExcept(id, sender), PeerJoined(id, role))] + ack
  }

  // ---------------------------------------------------------------------------
  // The map's insertion order, which `disconnect` iterates in

  predicate NoDup(s: seq<RoomId>) {
    forall i, j :: 0 <= i < j < |s| ==> s[i] != s[j]
  }

  /** The order after deleting `k` from the map. */
  function Without(s: seq<RoomId>, k: RoomId): (r: seq<RoomId>)
    ensures forall x :: x in r <==> x in s && x != k
    ensures NoDup(s) ==> NoDup(r)
    ensures k !in s ==> r == s
    decreases |s|
  {
    if s == [] then []
    else if s[0] == k then Without(s[1..], k)
    else
      var rest := Without(s[1..], k);
      assert NoDup(s) ==> s[0] !in rest;
      [s[0]] + rest
  }

  /** The order restricted to the keys still present. */
  function KeepOnly(s: seq<RoomId>, keys: set<RoomId>): seq<RoomId>
    decreases |s|
  {
    if s == [] then []
    else if s[0] in keys then [s[0]] + KeepOnly(s[1..], keys)
    else KeepOnly(s[1..], keys)
  }

  lemma PrefixStep(s: seq<RoomId>, i: nat)
    requires i < |s|
    ensures forall x :: x in s[..i + 1] <==> x in s[..i] || x == s[i]
  {
    assert s[..i + 1] == s[..i] + [s[i]];
  }

  lemma NoDupPrefix(s: seq<RoomId>, i: nat)
    requires NoDup(s) && i < |s|
    ensures s[i] !in s[..i]
  {
  }

  /** `KeepOnly` filters: it keeps exactly the members of `keys`, without repeating any. */
  lemma {:induction false} KeepOnlyFilters(s: seq<RoomId>, keys: set<RoomId>)
    ensures forall x :: x in KeepOnly(s, keys) <==> x in s && x in keys
    ensures NoDup(s) ==> NoDup(KeepOnly(s, keys))
    decreases |s|
  {
    if s != [] {
      KeepOnlyFilters(s[1..], keys);
      assert forall x :: x in s <==> x == s[0] || x in s[1..];
    }
  }

  lemma {:induction false} KeepOnlyAll(s: seq<RoomId>, keys: set<RoomId>)
    requires forall x :: x in s ==> x in keys
    ensures KeepOnly(s, keys) == s
    decreases |s|
  {
    if s != [] {
      KeepOnlyAll(s[1..], keys);
    }
  }

  lemma {:induction false} KeepOnlyWithout(s: seq<RoomId>, keys: set<RoomId>, k: RoomId)
    ensures Without(KeepOnly(s, keys), k) == KeepOnly(s, keys - {k})
    decreases |s|
  {
    if s != [] {
      KeepOnlyWithout(s[1..], keys, k);
    }
  }
}
