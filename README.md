# Video reception desk: signaling coordinator and call hand-off, in Dafny

This project models the core of a video reception desk. A visitor's tablet and
an operator hold a one-to-one video call. A Kurento media server relays the call,
and a socket.io signaling server brokers it.

**Signaling server** (`rooms.dfy`, `store.dfy`, `signaling.dfy`). The server
keeps a `rooms` map from a room id to a room. A room holds a media pipeline and
two endpoint slots, `caller` and `callee`. Each slot holds a WebRTC endpoint and
the socket bound to it. Beside it sits `pipelineLocks`, the room ids whose
pipeline creation is in flight. `Signaling.Coordinator` is a class with those
maps as fields. Each socket.io handler is a method that changes them in place.
Everything the server emits to sockets, or asks of the media relay, is appended
to an outbox of effects. Room objects are a class of their own (`Signaling.Room`).
A handler that still holds a room after another handler removed it from the map
keeps updating that orphaned object, as the server's closures do.

`ensureRoom` awaits in the middle. It is split at its waits into explicit
steps: begin (fast path, shell entry, lock), creation succeeded, creation
failed, and the waiter's resumption. Any interleaving of handlers is then a
sequence of method calls. The handlers are proved against pure functions over
a value view of the maps (`RoomStore.Store`). The lemmas about those functions
state single-flight creation, release idempotence, and no teardown while a
socket is still bound. They also state that one disconnect is reconciled
across every room it touches.

**PHP controllers** (`receptions.dfy`, `operator.dfy`, `video_call.dfy`,
`operation_video.dfy`). These are the decision logic of three controllers:
- how `/talk/ops/{id}` tells a six-digit room code from a UUID-like room id;
- which room id a reception gets, reused or newly claimed, and its status gate;
- the operator's availability state and its label;
- the "at most one active video" rule of the guidance-video table.

Database tables are a class holding a sequence of rows. `save()` replaces one
row. Generated UUIDs, upload results and timestamps are parameters.
Request inputs pass through Laravel's default global middleware first
(`middleware.dfy`): they are trimmed, and a blank one becomes null.

## Model

| member | source | states |
|---|---|---|
| Rooms.Unbind | signaling/server.js:337-338 | only the sides bound to the sender are cleared; pipeline and endpoints are kept; other sockets stay bound; the room becomes idle exactly when no other socket was bound; a room the sender is not in is unchanged |
| Rooms.ReleaseEffects | signaling/server.js:219-227 | the teardown asks only for releases, and releases exactly the room's existing endpoints and its pipeline |
| Rooms.IceTarget | signaling/server.js:314-319 | a candidate goes to an endpoint exactly when a side is bound to the sender and has an endpoint; it is that side's endpoint, and the caller side wins |
| Rooms.CandidatesStayOnTheirSide | signaling/server.js:310-319 | with two sockets on the two sides, each one's candidates reach only its own endpoint; any third socket's are dropped |
| Rooms.ConnectBothWays | signaling/server.js:170-203 | no connect unless both endpoints exist; otherwise caller→callee first, and callee→caller only if the first succeeded; nothing but connects is asked |
| Rooms.ResolveEndpoint | signaling/server.js:278-282 | an existing endpoint of the side is reused with no relay call; otherwise one is created in the room's pipeline and attached to the sender, and it fails without a pipeline or relay endpoint |
| Rooms.Negotiation | signaling/server.js:276-302 | an offer never changes the pipeline or the other side's slot |
| Rooms.NegotiationCreatesEndpointIfAbsent | signaling/server.js:278-282 | an endpoint is created only when the side has none, and then exactly when the room has a pipeline; an existing one is kept |
| Rooms.NegotiationOutcome | signaling/server.js:284-306 | the offer is answered exactly when an endpoint is available and the relay answers; the answer binds the sender and goes to it; otherwise the binding is kept and the last effect is `stop` to the sender; no release ever happens |
| Rooms.NegotiationConnects | signaling/server.js:297-302 | a connect happens exactly on an answered offer that leaves both endpoints present |
| Rooms.OfferOrderIndependent | signaling/server.js:270-302 | on a room with its pipeline and no endpoints, two successful offers, one per side, give the same room, each side bound to its sender, whichever comes first; only the second connects |
| Rooms.RepeatedOfferReusesEndpoint | signaling/server.js:278-282 | a second offer on the same side reuses the endpoint the first created and creates none |
| RoomStore.Decide | signaling/server.js:125-148 | an existing pipeline is used; else an in-flight lock is awaited; else a creation starts; an unreachable media client stops everything |
| RoomStore.Begin | signaling/server.js:129-148 | the fast path and a client failure change nothing; otherwise a shell entry exists afterwards, an existing entry is kept, and only a new creation takes the lock |
| RoomStore.NoCreationWhileBlocked | signaling/server.js:139-143 | while the lock is held or the pipeline exists, no run of `ensureRoom` calls for any rooms starts a creation for that id |
| RoomStore.SingleFlight | signaling/server.js:139-148 | however many `ensureRoom` calls start before a creation completes, at most one creates a pipeline for the id |
| RoomStore.Release | signaling/server.js:206-229 | the room is removed exactly when it exists and neither side has a socket; no other room and no lock changes |
| RoomStore.ReleaseFx | signaling/server.js:219-227 | the relay is asked only for releases, and only for a room that exists with no socket bound; such a room's pipeline is released |
| RoomStore.ReleaseIdempotent | signaling/server.js:206-229 | releasing twice equals releasing once, and the second call asks the relay for nothing |
| RoomStore.StopStore | signaling/server.js:326-341 | `stop` leaves the locks and every other room as they were; if the room survives, the sender is unbound in it and its pipeline is kept |
| RoomStore.StopFx | signaling/server.js:326-341 | `stop` with a room id emits `stop` to the whole room first, and everything after it is a release; without a room id it does nothing |
| RoomStore.NoPrematureTeardown | signaling/server.js:326-341 | while another socket is bound, `stop` keeps the room, its pipeline and endpoints, and only unbinds the sender |
| RoomStore.LastLeaveReleases | signaling/server.js:326-341 | the last bound socket's `stop` removes the room and releases exactly its endpoints and pipeline |
| RoomStore.StopTwiceReleasesOnce | signaling/server.js:326-341 | a second `stop` from the same socket changes nothing and releases nothing |
| RoomStore.DisconnectStore | signaling/server.js:346-360 | after a disconnect the locks are unchanged, the socket is bound in no surviving room, and every surviving room keeps its pipeline |
| RoomStore.DisconnectRooms | signaling/server.js:346-360 | after a disconnect the socket is bound nowhere; a room is gone exactly when the socket was in it and nobody else was; a room the socket shared stays with its other socket |
| RoomStore.DisconnectFx | signaling/server.js:348-359 | everything `disconnect` asks of the relay is a release |
| RoomStore.DisconnectReleasesDroppedEndpoints | signaling/server.js:348-359 | the endpoints a disconnect releases are exactly those of the rooms it drops |
| RoomStore.DisconnectReleasesDroppedPipelines | signaling/server.js:348-359 | the pipelines a disconnect releases are exactly those of the rooms it drops |
| RoomStore.DisconnectActsLikeStopPerRoom | signaling/server.js:348-359 | in each room the socket was in, a disconnect leaves what a `stop` for that room would; other rooms are untouched |
| RoomStore.StopReleasesIdleRoomOfAnySender | signaling/server.js:333-340 | `stop` releases an idle room even from a socket not bound in it, where a disconnect keeps it |
| RoomStore.DisconnectIdempotent | signaling/server.js:346-360 | a second disconnect of the same socket changes nothing |
| RoomStore.IceFx | signaling/server.js:310-324 | at most one candidate is added, exactly when the room and the candidate exist and a side matches, to that side's endpoint |
| RoomStore.JoinFx | signaling/server.js:251-266 | `join-room` asks the relay for nothing and creates no room; with an acknowledgement callback the last effect is the acknowledgement, `ok` exactly when a room id was given; without one nothing is acknowledged; without a room id the socket joins nothing and nobody is notified; with one the socket joins the room and the others get `peer-joined` |
| Signaling.Room.constructor | signaling/server.js:134 | a new room is the shell: no pipeline, both slots empty |
| Signaling.Room.Negotiate | signaling/server.js:276-306 | the room's new state, effects and answer are exactly those of `Negotiation` |
| Signaling.Coordinator.constructor | signaling/server.js:59 | the server starts with no rooms and no locks |
| Signaling.Coordinator.Join | signaling/server.js:251-266 | `join-room` changes no room state and emits `JoinFx`, acknowledging only when the client passed a callback |
| Signaling.Coordinator.AddShell | signaling/server.js:133-135 | a shell entry is added last in iteration order; other entries keep their objects |
| Signaling.Coordinator.DeleteEntry | signaling/server.js:160 | the entry leaves the map and the iteration order |
| Signaling.Coordinator.EnsureRoomBegin | signaling/server.js:125-152 | the maps change as `Begin`, the step matches `Decide`, and the fast path returns the stored room object; only a new creation asks the relay for a pipeline |
| Signaling.Coordinator.CreationSucceeded | signaling/server.js:152-167 | the room object gets the pipeline and the lock is gone, whether or not the room is still in the map |
| Signaling.Coordinator.CreationFailed | signaling/server.js:158-165 | the entry and the lock are gone and the sender gets `stop` |
| Signaling.Coordinator.OfferBegin | signaling/server.js:270-275 | an invalid payload changes nothing and sends `stop` to the sender only; a valid one runs `ensureRoom`'s first step; either way every existing entry keeps its room object and the order only gains a new shell |
| Signaling.Coordinator.OfferNegotiate | signaling/server.js:276-306 | the room object changes as `Negotiation` says; the map is updated only if that object is still in it |
| Signaling.Coordinator.OfferResume | signaling/server.js:141-143 | after the wait, a room that is gone makes the offer end with `stop`; otherwise the offer proceeds on the current room |
| Signaling.Coordinator.IceCandidate | signaling/server.js:310-324 | the loop over caller then callee adds the candidate exactly as `IceFx` says and changes no room |
| Signaling.Coordinator.ReleaseRoom | signaling/server.js:206-229 | the maps change as `Release`, the relay is asked for `ReleaseFx`, and the entry leaves the iteration order only when released |
| Signaling.Coordinator.Stop | signaling/server.js:326-341 | the maps change as `StopStore` and the effects are `StopFx`: `stop` to the whole room, then the releases; surviving entries keep their room objects, and the order loses the room only when it was released; the room object is left with the sender unbound, whether or not the entry was released |
| Signaling.Coordinator.UnbindSocket | signaling/server.js:349-357 | `changed` is true exactly when the socket was bound in the room; the room becomes its `Unbind` |
| Signaling.Coordinator.LeaveRoom | signaling/server.js:349-358 | one loop iteration: the room is dropped, with its releases, exactly when `Dropped`; otherwise it is unbound; the room object ends with the socket unbound, even when its entry is dropped |
| Signaling.Coordinator.DisconnectVisit | signaling/server.js:348-359 | one more visited room keeps the loop's invariant: the maps are `DisconnectVisited` and the effects `DisconnectFx` of the visited prefix; the visited room object ends with the socket unbound |
| Signaling.Coordinator.Disconnect | signaling/server.js:346-360 | the maps end as `DisconnectStore`, releases follow map iteration order, the order keeps only the surviving rooms, and those keep their room objects; every room object the map held, dropped or not, ends with the socket unbound |
| Signaling.Coordinator.VisitAll | signaling/server.js:348-359 | the loop over the snapshot of the keys ends with the rooms as `DisconnectRooms`, the releases of `DisconnectFx` in key order, and every visited room object unbound |
| Receptions.Advance | app/Http/Controllers/VideoCallController.php:50-52 | an open status ends `in_progress`, any other status is unchanged, and nothing is left `waiting` |
| Receptions.Claim | app/Http/Controllers/VideoCallController.php:45-54 | the stored `room_id` equals the returned one; a non-null stored id is reused, else the fresh UUID; other meta keys, token and code are unchanged; the status advances |
| Receptions.ClaimIdempotent | app/Http/Controllers/VideoCallController.php:45-47 | claiming again on the saved row returns the same room id and row, whatever UUID is offered |
| Receptions.SessionRoom | app/Http/Controllers/OperatorController.php:60-66 | a non-empty stored `room_id` is kept with the meta unchanged; an empty one becomes the code, or the token when the code is falsy; the stored id equals the returned one |
| Receptions.SessionRoomStable | app/Http/Controllers/OperatorController.php:61-66 | opening the session page again on the saved row gives the same room id and meta |
| Receptions.FirstWhere | app/Http/Controllers/VideoCallController.php:36 | the result is the first row matching the condition, or none when no row matches |
| Receptions.ReceptionTable.Save | app/Http/Controllers/VideoCallController.php:54 | the saved row replaces that row and no other |
| Operator.IsRoomCode | app/Http/Controllers/OperatorController.php:90 | an accepted code is six digits, possibly followed by one newline |
| Operator.LooksLikeUuid | app/Http/Controllers/OperatorController.php:124-127 | the intended test accepts only 36-character ids, never one containing a newline |
| Operator.LooksLikeUuidAsWrittenIsLooser | app/Http/Controllers/OperatorController.php:124-127 | the check as written accepts every intended UUID-like id, and in addition exactly such an id followed by a newline |
| Operator.LooksLikeUuidAsWritten | app/Http/Controllers/OperatorController.php:124-127 | an accepted id is 36 characters of hex digits and dashes, possibly followed by one newline |
| Operator.LooksLikeUuidTrailingNewline | app/Http/Controllers/OperatorController.php:126 | a concrete 37-character id passes the check as written but is not 36 characters |
| Operator.RoomCodeIsNotUuid | app/Http/Controllers/OperatorController.php:90 | no id passes both the room-code test and the UUID test, so the order of the two tests does not matter |
| Operator.NewlineCodeFindsNothing | app/Http/Controllers/OperatorController.php:90-93 | codes are at most six characters, so the newline-terminated ids the room-code test also accepts find no reception |
| Operator.VideoOps | app/Http/Controllers/OperatorController.php:87-121 | a room code claims the room id of the first open reception with that code, or gives 404; otherwise a UUID-like id is passed through unchanged and anything else gives 404, with no row changed |
| Operator.VideoOpsTwiceSameRoom | app/Http/Controllers/OperatorController.php:91-104 | opening the Ops page again with the same code finds the same reception, now `in_progress`, and the same room id |
| Operator.Session | app/Http/Controllers/OperatorController.php:55-79 | an unknown token gives 404; otherwise the page shows `SessionRoom`'s id, and the row is saved only when its `room_id` was empty |
| Operator.Label | app/Http/Controllers/OperatorController.php:21-29 | a state is shown raw exactly when it is not one of the four accepted states; an accepted state shows one of the four labels |
| Operator.ProfileTable.Dashboard | app/Http/Controllers/OperatorController.php:13-31 | an existing profile is unchanged; a missing one is created `off_today`; every stored state stays an accepted one, so the label shown is always one of the four and never the raw state |
| Operator.ProfileTable.UpdateSelfState | app/Http/Controllers/OperatorController.php:33-43 | the trimmed input is accepted exactly when it is one of the four states; an accepted one becomes the user's state, and a rejected one changes nothing; every stored state stays an accepted one |
| VideoCall.GateFor | app/Http/Controllers/VideoCallController.php:36-43 | unknown token exactly when no row has it; an open gate names a row with the token and an open status; a closed one means such a row has another status |
| VideoCall.Request | app/Http/Controllers/VideoCallController.php:16-29 | 404, 409 or success follow the gate, and no row changes |
| VideoCall.OperatorId | app/Http/Controllers/VideoCallController.php:57 | the id is `operator` exactly when there is no user; otherwise it is the decimal digits of the user's id |
| VideoCall.DecimalStringRoundTrip | app/Http/Controllers/VideoCallController.php:59 | the string cast of a user id reads back as that id |
| VideoCall.Accept | app/Http/Controllers/VideoCallController.php:34-62 | unknown token or closed status changes nothing; otherwise the row is saved with `Claim`'s result, and the reply carries that room id and the operator id |
| VideoCall.AcceptTwiceSameRoom | app/Http/Controllers/VideoCallController.php:45-61 | a second accept passes the gate on the same row and returns the same room id |
| OperationVideo.Deactivated | app/Http/Controllers/Operation/VideoController.php:24 | every row's flag is cleared and nothing else changes |
| OperationVideo.SetActive | app/Http/Controllers/Operation/VideoController.php:32 | only the chosen video's flag changes |
| OperationVideo.Activated | app/Http/Controllers/Operation/VideoController.php:23-26 | the intended activate changes only flags, and a video ends active exactly when it has the chosen id |
| OperationVideo.ActivatedHasOnlyIt | app/Http/Controllers/Operation/VideoController.php:23-26 | after the intended activate, exactly the chosen video is active and only flags changed |
| OperationVideo.ActivateAsWritten | app/Http/Controllers/Operation/VideoController.php:23-26 | only flags change; on a video that was not active it agrees with the intended activate |
| OperationVideo.ActivateAsWrittenLosesActive | app/Http/Controllers/Operation/VideoController.php:23-26 | for every table, activating a video that is already active, as written, leaves no video active, where the intended activate leaves it active |
| OperationVideo.DeactivateKeepsAtMostOne | app/Http/Controllers/Operation/VideoController.php:32 | deactivating keeps "at most one active" |
| OperationVideo.LatestActive | app/Http/Controllers/Operation/VideoController.php:86-92 | none exactly when no video is active; otherwise an active video with the latest `created_at` |
| OperationVideo.Watch | app/Http/Controllers/Operation/VideoController.php:100-102 | a video is served only if its token matches and it is active; none exactly when no such video exists |
| OperationVideo.ListActive | app/Http/Controllers/Operation/VideoController.php:106-111 | the listing is no longer than the table, and it is empty exactly when no video is active |
| OperationVideo.ListActiveSound | app/Http/Controllers/Operation/VideoController.php:108-110 | every listed entry is the id and title of an active video |
| OperationVideo.ListActiveComplete | app/Http/Controllers/Operation/VideoController.php:108-110 | every active video is listed |
| OperationVideo.ListActiveSorted | app/Http/Controllers/Operation/VideoController.php:109 | the list is in ascending id order, so no video appears twice |
| OperationVideo.ActiveAfterActivate | app/Http/Controllers/Operation/VideoController.php:21-26 | after the intended activate of a video, `active` returns it and `watch` serves it |
| OperationVideo.WithNewActive | app/Http/Controllers/Operation/VideoController.php:51-63 | after a committed upload the new video is the last row and the only active one |
| OperationVideo.ActiveAfterStore | app/Http/Controllers/Operation/VideoController.php:47-65 | after a committed upload `active` returns the new video |
| OperationVideo.VideoTable.Find | app/Http/Controllers/Operation/VideoController.php:21 | the route binding finds the row with the id, or none exactly when there is no such row |
| OperationVideo.VideoTable.Activate | app/Http/Controllers/Operation/VideoController.php:21-29 | an unknown id changes nothing; otherwise the table becomes `Activated` |
| OperationVideo.VideoTable.Deactivate | app/Http/Controllers/Operation/VideoController.php:30-35 | an unknown id changes nothing; otherwise only the chosen video's flag is cleared |
| Middleware.Trim | app/Http/Controllers/Operation/VideoController.php:42-57 | the result is a contiguous part of the input that neither starts nor ends with whitespace, and everything cut off is whitespace |
| Middleware.Normalized | app/Http/Controllers/Operation/VideoController.php:42-57 | an input reaches the controller as null exactly when it was missing or blank, and otherwise trimmed |
| Middleware.TrimIdempotent | app/Http/Controllers/Operation/VideoController.php:42-57 | trimming an already trimmed input changes nothing |
| OperationVideo.VideoTable.Store | app/Http/Controllers/Operation/VideoController.php:40-79 | invalid input gives 422 and no change; a failed file write or a token clash rolls back; otherwise the new video gets the next id, the trimmed title and the trimmed description (null when empty), and is the only active one |

## Left out

- The `phase-change` relay (signaling/server.js:239-247): it forwards the payload verbatim and keeps no state.
- HTTPS, Express, CORS, `/health`, environment parsing, logging and the process handlers. socket.io delivery is an outbox of effects.
- Kurento client calls. The relay's answers are parameters: `clientOk` for `getKurentoClient`, and `Relay` for `createEndpoint`, `processOffer` and the caller→callee connect. STUN/TURN setup and the endpoint's event handlers are one `AttachEndpoint` effect. Candidate forwarding by those handlers is not modelled.
- Signaling.Coordinator.OfferNegotiate: the awaits of `createEndpoint` and `processOffer` are one step. Two offers for the same side that interleave across those awaits are not modelled. Only the interleavings at `ensureRoom`'s lock are.
- `connectBothWays` is not awaited by the handler. Its connects are appended right after the answer, as if the relay answered before any other event.
- Payload fields that are not strings. A missing room id, sdp or role is the empty string; JavaScript truthiness of other types is not modelled.
- OperatorController `assign` (app/Http/Controllers/OperatorController.php:45-52): an unconditional write of the operator id and status. It has no decision logic.
- VideoCallController `stop` (app/Http/Controllers/VideoCallController.php:64-68) and Operation/VideoController `index`: they return a constant or a plain listing.
- Rendering: Inertia pages, `signalingUrl`, `has_video`, and the user's name and email. The `CallRequested` and `CallAccepted` broadcasts are reflected only in the reply values; their timestamp is not modelled.
- The JSON `meta` column holds only string values. Numbers, booleans and nested arrays under `room_id` are not modelled.
- `Str::uuid()` is a parameter. UUID uniqueness is not modelled, except that a `public_token` clash makes `store` fail.
- Receptions.FirstWhere: `first()` without `orderBy` is modelled as primary-key order. The database does not promise that order.
- Receptions.HasToken, Receptions.OpenWithCode and OperationVideo.Watch compare keys exactly. Under a case-insensitive, PAD SPACE collation the database would also match case and trailing-space variants; the collation is database configuration outside this model.
- OperationVideo.LatestActive: when several active videos share the latest `created_at`, the one returned is not pinned down, just as `latest()` does not pin it down.
- OperationVideo.VideoTable.Store: the uploaded file stays on disk after a rollback; the file system is outside the model. `updated_at` and `created_at` bookkeeping is left out as well, except `created_at` of the new row.
- OperationVideo.VideoTable.Store: a failed file write is modelled as a throw that rolls back. A disk configured not to throw makes `store()` return false, and the row is then committed with that value; the disk configuration is not part of this model.
- Middleware.IsTrimmed: `TrimStrings` strips ASCII whitespace, NUL, U+FEFF, U+200B and U+200E. Other Unicode spaces that `\s` may match in a `/u` pattern are not modelled.
- Database transactions are modelled as atomic steps. Concurrent requests against the tables are not modelled.
- Behaviours of the code a reader might not expect, which the model keeps:
  - `join-room` creates no room entry;
  - `stop` goes to the whole socket.io room, sender included;
  - callee→caller is attempted only after caller→callee succeeded;
  - a waiter on the creation lock gets whatever is in the map afterwards, possibly nothing, rather than the completed pipeline;
  - a room whose offer failed before any socket was bound stays in the map until a `stop` for it.

## Findings

| source | as written | input that shows it | evidently intended | confidence | as-written member | corrected member |
|---|---|---|---|---|---|---|
| app/Http/Controllers/Operation/VideoController.php:23-26 | the bulk update clears every active flag, then `$video->update(['is_active' => true])` on the instance loaded before it writes nothing when that instance was already active, because Eloquent saves only changed attributes | activate the video that is currently the active one | the chosen video ends active and every other inactive | not executed | OperationVideo.ActivateAsWrittenLosesActive | OperationVideo.VideoTable.Activate |
| app/Http/Controllers/OperatorController.php:126 | `/^[0-9a-fA-F-]{36}$/` without the `D` modifier: `$` also matches before a final newline | `0123456789abcdef0123456789ABCDEF-123` followed by a newline (37 characters) is passed through as a room id | only 36-character ids of that class are room ids | not executed | Operator.LooksLikeUuidTrailingNewline | Operator.VideoOps |
