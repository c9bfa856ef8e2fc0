/**
 * The operator side of the reception desk: how `/talk/ops/{id}` tells a room
 * code from a room id, the room id the session page settles on, and the
 * operator's own availability state with its display label.
 */
module Operator {
  import opened Wrappers
  import opened Receptions
  import opened Middleware

  // ---------------------------------------------------------------------------
  // Classifying the id of /talk/ops/{id}
  // ---------------------------------------------------------------------------

  /** `\d` without the `u` modifier: an ASCII digit. */
  predicate IsDigit(c: char) {
    '0' <= c <= '9'
  }

  /** A member of the character class `[0-9a-fA-F-]`. */
  predicate IsUuidChar(c: char) {
    IsDigit(c) || 'a' <= c <= 'f' || 'A' <= c <= 'F' || c == '-'
  }

  /** `s` is exactly `n` characters, each satisfying `cls`. */
  predicate AllOf(s: string, cls: char -> bool, n: nat) {
    |s| == n && forall i :: 0 <= i < |s| ==> cls(s[i])
  }

  /**
   * `preg_match('/^X{n}$/', s)` for a one-character class X: without the `D`
   * modifier, `$` also matches just before a final newline.
   */
  predicate PcreAnchored(s: string, cls: char -> bool, n: nat) {
    AllOf(s, cls, n) || (|s| == n + 1 && s[n] == '\n' && AllOf(s[..n], cls, n))
  }

  /** `preg_match('/^\d{6}$/', $id)`: the room-code test of `videoOps`. */
  predicate IsRoomCode(id: string)
    ensures IsRoomCode(id) ==> |id| == 6 || (|id| == 7 && id[6] == '\n')
    ensures IsRoomCode(id) ==> forall i :: 0 <= i < 6 ==> IsDigit(id[i])
  {
    PcreAnchored(id, IsDigit, 6)
  }

  /** `looksLikeUuid` as written: `preg_match('/^[0-9a-fA-F-]{36}$/', $v)`. */
  predicate LooksLikeUuidAsWritten(v: string)
    ensures LooksLikeUuidAsWritten(v) ==> |v| == 36 || (|v| == 37 && v[36] == '\n')
    ensures LooksLikeUuidAsWritten(v) ==> forall i :: 0 <= i < 36 ==> IsUuidChar(v[i])
  {
    PcreAnchored(v, IsUuidChar, 36)
  }

  /** `looksLikeUuid` as intended: 36 characters, all hex digits or dashes. */
  predicate LooksLikeUuid(v: string)
    ensures LooksLikeUuid(v) ==> |v| == 36 && '\n' !in v
  {
    AllOf(v, IsUuidChar, 36)
  }

  /** The check as written accepts one more shape than intended: a 36-character id followed by a newline. */
  lemma LooksLikeUuidAsWrittenIsLooser(v: string)
    ensures LooksLikeUuid(v) ==> LooksLikeUuidAsWritten(v)
    ensures LooksLikeUuidAsWritten(v) <==>
              LooksLikeUuid(v) || (|v| == 37 && v[36] == '\n' && LooksLikeUuid(v[..36]))
  {
  }

  /** A concrete id the check as written lets through although it is 37 characters long. */
  lemma LooksLikeUuidTrailingNewline()
    ensures var v := "0123456789abcdef0123456789ABCDEF-123\n";
            LooksLikeUuidAsWritten(v) && !LooksLikeUuid(v)
  {
    var v := "0123456789abcdef0123456789ABCDEF-123\n";
    assert |v| == 37 && v[36] == '\n';
    assert v[..36] == "0123456789abcdef0123456789ABCDEF-123";
    assert AllOf(v[..36], IsUuidChar, 36);
  }

  /** The two routes of `videoOps` never compete: no room code looks like a room id. */
  lemma RoomCodeIsNotUuid(id: string)
    ensures IsRoomCode(id) ==> !LooksLikeUuid(id) && !LooksLikeUuidAsWritten(id)
  {
  }

  /**
   * The `code` column holds at most six characters, so the newline-terminated
   * codes the room-code test also accepts never find a reception.
   */
  lemma NewlineCodeFindsNothing(rows: seq<Reception>, id: string)
    requires forall j :: 0 <= j < |rows| && rows[j].code.Some? ==> |rows[j].code.value| <= 6
    requires IsRoomCode(id) && |id| != 6
    ensures FirstWhere(rows, OpenWithCode(id)).None?
  {
  }

  // ---------------------------------------------------------------------------
  // videoOps and session
  // ---------------------------------------------------------------------------

  /** What `/talk/ops/{id}` answers: 404, or the Ops page for a room. */
  datatype OpsReply = OpsNotFound | OpsPage(roomId: string)

  /**
   * `videoOps`: a room code picks the first open reception with that code and
   * claims its room id; a UUID-like id is the room id itself; anything else is 404.
   * `uuid` is the value `Str::uuid()` would produce.
   */
  method VideoOps(table: ReceptionTable, id: string, uuid: string) returns (r: OpsReply)
    modifies table
    ensures IsRoomCode(id) ==>
              match FirstWhere(old(table.rows), OpenWithCode(id))
              case None => r == OpsNotFound && table.rows == old(table.rows)
              case Some(i) =>
                var (roomId, saved) := Claim(old(table.rows)[i], uuid);
                r == OpsPage(roomId) && table.rows == old(table.rows)[i := saved]
    ensures !IsRoomCode(id) ==> table.rows == old(table.rows)
    ensures !IsRoomCode(id) ==> r == if LooksLikeUuid(id) then OpsPage(id) else OpsNotFound
  {
    if IsRoomCode(id) {
      var found := FirstWhere(table.rows, OpenWithCode(id));
      if found.None? {
        return OpsNotFound;
      }
      var i := found.value;
      var rec := table.rows[i];
      var meta := MetaOf(rec);
      var roomId := if RoomIdKey in meta then meta[RoomIdKey] else uuid;
      meta := meta[RoomIdKey := roomId];
      if rec.status == Waiting {
        rec := rec.(status := InProgress);
      }
      rec := rec.(meta := Some(meta));
      table.Save(i, rec);
      return OpsPage(roomId);
    }
    if LooksLikeUuid(id) {
      return OpsPage(id);
    }
    return OpsNotFound;
  }

  /**
   * Opening the Ops page again with the same room code finds the same
   * reception (now `in_progress`, still open) and hands out the same room id.
   */
  lemma VideoOpsTwiceSameRoom(rows: seq<Reception>, id: string, uuid: string, uuid2: string)
    requires FirstWhere(rows, OpenWithCode(id)).Some?
    ensures var i := FirstWhere(rows, OpenWithCode(id)).value;
            var (roomId, saved) := Claim(rows[i], uuid);
            && saved.status == InProgress
            && FirstWhere(rows[i := saved], OpenWithCode(id)) == Some(i)
            && Claim(saved, uuid2) == (roomId, saved)
  {
    var i := FirstWhere(rows, OpenWithCode(id)).value;
    var (roomId, saved) := Claim(rows[i], uuid);
    assert OpenWithCode(id)(rows[i]);
    SavedRowStaysFirst(rows, i, saved, OpenWithCode(id));
    ClaimIdempotent(rows[i], uuid, uuid2);
  }

  /** What the operator's session page shows: 404, or the reception's status and its room. */
  datatype SessionReply = SessionNotFound | SessionPage(token: string, status: Status, roomId: string)

  /** `session`: settle the reception's room id (saving only when it was empty) and show it. */
  method Session(table: ReceptionTable, token: string) returns (r: SessionReply)
    modifies table
    ensures match FirstWhere(old(table.rows), HasToken(token))
            case None => r == SessionNotFound && table.rows == old(table.rows)
            case Some(i) =>
              var rec := old(table.rows)[i];
              var (roomId, meta) := SessionRoom(rec);
              && r == SessionPage(token, rec.status, roomId)
              && table.rows == if Empty(Get(MetaOf(rec), RoomIdKey))
                               then old(table.rows)[i := rec.(meta := Some(meta))]
                               else old(table.rows)
  {
    var found := FirstWhere(table.rows, HasToken(token));
    if found.None? {
      return SessionNotFound;
    }
    var i := found.value;
    var rec := table.rows[i];
    var meta := MetaOf(rec);
    if Empty(Get(meta, RoomIdKey)) {
      meta := meta[RoomIdKey := if Empty(rec.code) then rec.token else rec.code.value];
      rec := rec.(meta := Some(meta));
      table.Save(i, rec);
    }
    r := SessionPage(rec.token, rec.status, meta[RoomIdKey]);
  }

  // ---------------------------------------------------------------------------
  // The operator's own state
  // ---------------------------------------------------------------------------

  /** The values `updateSelfState` accepts (`in:available,busy,break,off_today`). */
  predicate Allowed(state: string) {
    state == "available" || state == "busy" || state == "break" || state == "off_today"
  }

  /** The state a new profile starts in. */
  const DefaultState: string := "off_today"

  const Labels: map<string, string> :=
    map["available" := "待機中", "busy" := "接客中", "break" := "休憩中", "off_today" := "本日休業"]

  /**
   * `$labels[$state] ?? $state`: exactly the accepted states get a label of
   * their own; any other value is shown raw.
   */
  function Label(state: string): (shown: string)
    ensures shown == state <==> !Allowed(state)
    ensures Allowed(state) ==> shown in Labels.Values
  {
    if state in Labels then Labels[state] else state
  }

  /**
   * `operator_profiles`: one state per user (`user_id` is unique). The `state`
   * column is an enum of the four accepted states, which `Valid` records.
   */
  class ProfileTable {
    var states: map<nat, string>

    ghost predicate Valid()
      reads this
    {
      forall u :: u in states ==> Allowed(states[u])
    }

    constructor (states: map<nat, string>)
      requires forall u :: u in states ==> Allowed(states[u])
      ensures Valid() && this.states == states
    {
      this.states := states;
    }

    /**
     * `dashboard`: `firstOrCreate` the profile with `off_today`, then show the
     * state and its label; the raw-state fallback of the label never shows.
     */
    method Dashboard(user: nat) returns (state: string, shown: string)
      requires Valid()
      modifies this
      ensures Valid()
      ensures user in old(states) ==> states == old(states) && state == old(states)[user]
      ensures user !in old(states) ==> states == old(states)[user := DefaultState] && state == DefaultState
      ensures shown == Label(state) && shown != state && shown in Labels.Values
    {
      if user !in states {
        states := states[user := DefaultState];
      }
      state := states[user];
      shown := Label(state);
    }

    /**
     * `updateSelfState`: the input reaches validation trimmed, and null when
     * blank. A missing or unknown state fails validation and changes nothing;
     * an accepted one becomes the user's state, creating the profile if need be.
     */
    method UpdateSelfState(user: nat, requested: Option<string>) returns (accepted: bool)
      requires Valid()
      modifies this
      ensures Valid()
      ensures accepted <==> Normalized(requested).Some? && Allowed(Normalized(requested).value)
      ensures accepted ==> states == old(states)[user := Normalized(requested).value]
      ensures !accepted ==> states == old(states)
    {
      var state := Normalized(requested);
      if state.None? || !Allowed(state.value) {
        return false;
      }
      if user !in states {
        states := states[user := DefaultState];
      }
      states := states[user := state.value];
      accepted := true;
    }
  }
}
