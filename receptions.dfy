/**
 * The `receptions` table as the PHP controllers see it: a visitor's token, the
 * optional six-digit room code, the status enum and the JSON `meta` column, of
 * which only string values under known keys (notably `room_id`) are modelled.
 *
 * A row set by the controllers is written back with `save()`, which the table
 * class models as replacing one row in place.
 */
module Receptions {
  import opened Wrappers

  /** The `status` enum column, in declaration order. */
  datatype Status = Started | Waiting | InProgress | Verify | Apply | Important | Sign | Done | Canceled

  /** The decoded `meta` array: a missing key and a JSON null are both absent. */
  type Meta = map<string, string>

  datatype Reception = Reception(token: string, code: Option<string>, status: Status, meta: Option<Meta>)

  const RoomIdKey: string := "room_id"

  /** `$rec->meta ?? []` */
  function MetaOf(rec: Reception): Meta {
    if rec.meta.Some? then rec.meta.value else map[]
  }

  /** `$meta[$key]`, where a missing key reads as null. */
  function Get(meta: Meta, key: string): Option<string> {
    if key in meta then Some(meta[key]) else None
  }

  /** PHP's `empty()` (and the falsiness `?:` tests) on a string or null: null, "" and "0". */
  predicate Empty(v: Option<string>) {
    v.None? || v.value == "" || v.value == "0"
  }

  /** The statuses in which a call may be requested or accepted, and a room code looked up. */
  predicate CallOpen(s: Status) {
    s == Waiting || s == InProgress
  }

  /** `if ($rec->status === 'waiting') $rec->status = 'in_progress';` */
  function Advance(s: Status): (t: Status)
    ensures CallOpen(s) <==> t == InProgress
    ensures !CallOpen(s) ==> t == s
    ensures t != Waiting
  {
    if s == Waiting then InProgress else s
  }

  /**
   * The room-id claim shared by `videoOps` and `accept`: reuse a non-null
   * `meta.room_id`, else take the fresh UUID; store it back; move `waiting`
   * on to `in_progress`. Returns the room id and the row to save.
   */
  function Claim(rec: Reception, uuid: string): (r: (string, Reception))
    ensures Get(MetaOf(r.1), RoomIdKey) == Some(r.0)
    ensures Get(MetaOf(rec), RoomIdKey).Some? ==> r.0 == MetaOf(rec)[RoomIdKey]
    ensures Get(MetaOf(rec), RoomIdKey).None? ==> r.0 == uuid
    ensures forall k :: k != RoomIdKey ==> Get(MetaOf(r.1), k) == Get(MetaOf(rec), k)
    ensures r.1.token == rec.token && r.1.code == rec.code && r.1.status == Advance(rec.status)
  {
    var meta := MetaOf(rec);
    var roomId := if RoomIdKey in meta then meta[RoomIdKey] else uuid;
    (roomId, rec.(status := Advance(rec.status), meta := Some(meta[RoomIdKey := roomId])))
  }

  /** A second claim, whatever UUID it is offered, returns the same room id and saves the same row. */
  lemma ClaimIdempotent(rec: Reception, uuid: string, uuid2: string)
    ensures var (roomId, saved) := Claim(rec, uuid);
            Claim(saved, uuid2) == (roomId, saved)
  {
    var (roomId, saved) := Claim(rec, uuid);
    assert MetaOf(saved)[RoomIdKey := roomId] == MetaOf(saved);
  }

  /**
   * The rule of the operator's `session` page: an empty `meta.room_id` becomes
   * the code, or the token when the code is falsy; a non-empty one is kept.
   * Returns the room id and the meta that ends up on the row.
   */
  function SessionRoom(rec: Reception): (r: (string, Meta))
    ensures Get(r.1, RoomIdKey) == Some(r.0)
    ensures !Empty(Get(MetaOf(rec), RoomIdKey)) ==> r == (MetaOf(rec)[RoomIdKey], MetaOf(rec))
    ensures Empty(Get(MetaOf(rec), RoomIdKey)) ==>
              r.0 == (if Empty(rec.code) then rec.token else rec.code.value)
    ensures forall k :: k != RoomIdKey ==> Get(r.1, k) == Get(MetaOf(rec), k)
  {
    var meta := MetaOf(rec);
    if Empty(Get(meta, RoomIdKey)) then
      var roomId := if Empty(rec.code) then rec.token else rec.code.value;
      (roomId, meta[RoomIdKey := roomId])
    else
      (meta[RoomIdKey], meta)
  }

  /** Opening the session page again, on the row the first visit saved, shows the same room. */
  lemma SessionRoomStable(rec: Reception)
    ensures var (roomId, meta) := SessionRoom(rec);
            SessionRoom(rec.(meta := Some(meta))) == (roomId, meta)
  {
    var (roomId, meta) := SessionRoom(rec);
    var rec' := rec.(meta := Some(meta));
    if Empty(Get(MetaOf(rec), RoomIdKey)) && Empty(Some(roomId)) {
      assert meta[RoomIdKey := roomId] == meta;
    }
  }

  /** The index of the first row satisfying `p`, as `where(...)->first()` returns it. */
  function FirstWhere(rows: seq<Reception>, p: Reception -> bool): (r: Option<nat>)
    ensures r.Some? ==> r.value < |rows| && p(rows[r.value])
    ensures r.Some? ==> forall j :: 0 <= j < r.value ==> !p(rows[j])
    ensures r.None? ==> forall j :: 0 <= j < |rows| ==> !p(rows[j])
    decreases |rows|
  {
    if |rows| == 0 then None
    else if p(rows[0]) then Some(0)
    else
      var r := FirstWhere(rows[1..], p);
      if r.None? then None else Some(r.value + 1)
  }

  /** `first()` depends only on which rows satisfy the condition. */
  lemma {:induction false} FirstWhereAgree(a: seq<Reception>, b: seq<Reception>, p: Reception -> bool)
    requires |a| == |b| && forall j :: 0 <= j < |a| ==> p(a[j]) == p(b[j])
    ensures FirstWhere(a, p) == FirstWhere(b, p)
    decreases |a|
  {
    if |a| > 0 && !p(a[0]) {
      FirstWhereAgree(a[1..], b[1..], p);
    }
  }

  /** Saving the row `first()` found, when it still satisfies the condition, leaves it the first match. */
  lemma SavedRowStaysFirst(rows: seq<Reception>, i: nat, saved: Reception, p: Reception -> bool)
    requires FirstWhere(rows, p) == Some(i) && p(saved)
    ensures FirstWhere(rows[i := saved], p) == Some(i)
  {
    FirstWhereAgree(rows, rows[i := saved], p);
  }

  /** `where('token', $token)` */
  function HasToken(token: string): Reception -> bool {
    (rec: Reception) => rec.token == token
  }

  /** `where('code', $id)->whereIn('status', ['waiting', 'in_progress'])` */
  function OpenWithCode(code: string): Reception -> bool {
    (rec: Reception) => rec.code == Some(code) && CallOpen(rec.status)
  }

  /** The rows of `receptions`, in primary-key order. */
  class ReceptionTable {
    var rows: seq<Reception>

    constructor (rows: seq<Reception>)
      ensures this.rows == rows
    {
      this.rows := rows;
    }

    /** `$rec->save()` on the row at index `i`. */
    method Save(i: nat, rec: Reception)
      requires i < |rows|
      modifies this
      ensures rows == old(rows)[i := rec]
    {
      rows := rows[i := rec];
    }
  }
}
