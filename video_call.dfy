/**
 * The call hand-off between the visitor's tablet and the operator: the tablet
 * asks for a call by its reception token, the operator accepts it and receives
 * the room id both sides then join on the signaling server.
 */
module VideoCall {
  import opened Wrappers
  import opened Receptions

  /** The status gate shared by `request` and `accept`: unknown token, closed status, or the row to use. */
  datatype Gate = NoSuchToken | Closed | Open(i: nat)

  function GateFor(rows: seq<Reception>, token: string): (g: Gate)
    ensures g == NoSuchToken <==> forall j :: 0 <= j < |rows| ==> rows[j].token != token
    ensures g.Open? ==> g.i < |rows| && rows[g.i].token == token && CallOpen(rows[g.i].status)
    ensures g == Closed ==> exists j :: 0 <= j < |rows| && rows[j].token == token && !CallOpen(rows[j].status)
  {
    var found := FirstWhere(rows, HasToken(token));
    if found.None? then
      assert forall j :: 0 <= j < |rows| ==> !HasToken(token)(rows[j]);
      NoSuchToken
    else if !CallOpen(rows[found.value].status) then Closed
    else Open(found.value)
  }

  /** The JSON answers: 404 `invalid token`, 409 `status not allowed`, or success. */
  datatype CallReply =
    | InvalidToken
    | StatusNotAllowed
    | Requested(token: string)                         // `CallRequested` is broadcast
    | Accepted(roomId: string, operatorId: string)     // `CallAccepted` is broadcast

  /** `request`: the tablet's call request passes the gate or is refused; it never changes a row. */
  function Request(rows: seq<Reception>, token: string): (r: CallReply)
    ensures r == InvalidToken <==> GateFor(rows, token) == NoSuchToken
    ensures r == StatusNotAllowed <==> GateFor(rows, token) == Closed
    ensures r.Requested? <==> GateFor(rows, token).Open?
    ensures r.Requested? ==> r.token == token
  {
    match GateFor(rows, token)
    case NoSuchToken => InvalidToken
    case Closed => StatusNotAllowed
    case Open(_) => Requested(token)
  }

  /** The decimal digit for `d < 10`. */
  function DigitChar(d: nat): char
    requires d < 10
  {
    ('0' as int + d) as char
  }

  /** `(string) $id` for a non-negative integer id. */
  function DecimalString(n: nat): (s: string)
    ensures |s| >= 1 && forall k :: 0 <= k < |s| ==> '0' <= s[k] <= '9'
    decreases n
  {
    if n < 10 then [DigitChar(n)] else DecimalString(n / 10) + [DigitChar(n % 10)]
  }

  /** Reads a string of decimal digits back as a number. */
  function ParseDecimal(s: string): nat
    requires forall k :: 0 <= k < |s| ==> '0' <= s[k] <= '9'
    decreases |s|
  {
    if |s| == 0 then 0 else ParseDecimal(s[..|s| - 1]) * 10 + (s[|s| - 1] as int - '0' as int)
  }

  lemma {:induction false} DecimalStringRoundTrip(n: nat)
    ensures ParseDecimal(DecimalString(n)) == n
    decreases n
  {
    if n >= 10 {
      var s := DecimalString(n);
      assert s[..|s| - 1] == DecimalString(n / 10);
      DecimalStringRoundTrip(n / 10);
    }
  }

  /** `optional($req->user())->id ?? 'operator'`, then cast to string. */
  function OperatorId(user: Option<nat>): (s: string)
    ensures user.None? <==> s == "operator"
    ensures user.Some? ==> (forall k :: 0 <= k < |s| ==> '0' <= s[k] <= '9') && ParseDecimal(s) == user.value
  {
    if user.None? then "operator"
    else
      var s := DecimalString(user.value);
      assert s[0] != 'o';
      DecimalStringRoundTrip(user.value);
      s
  }

  /**
   * `accept`: past the gate, claim the room id (reusing a stored one, else
   * `uuid`), move `waiting` on to `in_progress`, save, and answer with the
   * room id and the operator id; a refused request changes nothing.
   */
  method Accept(table: ReceptionTable, token: string, uuid: string, user: Option<nat>) returns (r: CallReply)
    modifies table
    ensures match GateFor(old(table.rows), token)
            case NoSuchToken => r == InvalidToken && table.rows == old(table.rows)
            case Closed => r == StatusNotAllowed && table.rows == old(table.rows)
            case Open(i) =>
              var (roomId, saved) := Claim(old(table.rows)[i], uuid);
              r == Accepted(roomId, OperatorId(user)) && table.rows == old(table.rows)[i := saved]
  {
    var found := FirstWhere(table.rows, HasToken(token));
    if found.None? {
      return InvalidToken;
    }
    var i := found.value;
    var rec := table.rows[i];
    if !CallOpen(rec.status) {
      return StatusNotAllowed;
    }
    var meta := MetaOf(rec);
    var roomId := if RoomIdKey in meta then meta[RoomIdKey] else uuid;
    meta := meta[RoomIdKey := roomId];
    if rec.status == Waiting {
      rec := rec.(status := InProgress);
    }
    rec := rec.(meta := Some(meta));
    table.Save(i, rec);
    var operatorId := if user.None? then "operator" else DecimalString(user.value);
    r := Accepted(roomId, operatorId);
  }

  /**
   * Accepting the same call again, on the row the first accept saved, passes
   * the gate on the same row and hands out the same room id, whatever UUID
   * the second call would have generated.
   */
  lemma AcceptTwiceSameRoom(rows: seq<Reception>, token: string, uuid: string, uuid2: string)
    requires GateFor(rows, token).Open?
    ensures var i := GateFor(rows, token).i;
            var (roomId, saved) := Claim(rows[i], uuid);
            GateFor(rows[i := saved], token) == Open(i) && Claim(saved, uuid2) == (roomId, saved)
  {
    var i := GateFor(rows, token).i;
    var (roomId, saved) := Claim(rows[i], uuid);
    SavedRowStaysFirst(rows, i, saved, HasToken(token));
    ClaimIdempotent(rows[i], uuid, uuid2);
  }
}
