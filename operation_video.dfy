/**
 * The guidance videos shown to visitors: operators upload, activate and
 * deactivate them, and at most one is meant to be active at a time; visitors
 * see the active one, watch a video by its public token, and list the active
 * ones.
 */
module OperationVideo {
  import opened Wrappers
  import opened Middleware

  /** A row of `videos`; `createdAt` is the `created_at` timestamp as a number. */
  datatype Video = Video(id: nat, title: string, description: Option<string>, filePath: string,
                         publicToken: string, isActive: bool, createdAt: nat)

  /** Rows in primary-key order: ids strictly increase (auto-increment). */
  predicate IdsAscending(rows: seq<Video>) {
    forall i, j :: 0 <= i < j < |rows| ==> rows[i].id < rows[j].id
  }

  predicate AtMostOneActive(rows: seq<Video>) {
    forall i, j :: 0 <= i < |rows| && 0 <= j < |rows| && rows[i].isActive && rows[j].isActive ==> i == j
  }

  predicate HasId(rows: seq<Video>, id: nat) {
    exists j :: 0 <= j < |rows| && rows[j].id == id
  }

  /** `Video::where('is_active', true)->update(['is_active' => false])` */
  function Deactivated(rows: seq<Video>): (r: seq<Video>)
    ensures |r| == |rows|
    ensures forall j :: 0 <= j < |r| ==> r[j] == rows[j].(isActive := false)
  {
    seq(|rows|, j requires 0 <= j < |rows| => rows[j].(isActive := false))
  }

  /** The row with `id` takes the flag `active`; every other row is as it was. */
  function SetActive(rows: seq<Video>, id: nat, active: bool): (r: seq<Video>)
    ensures |r| == |rows|
    ensures forall j :: 0 <= j < |r| ==> r[j] == if rows[j].id == id then rows[j].(isActive := active) else rows[j]
  {
    seq(|rows|, j requires 0 <= j < |rows| => if rows[j].id == id then rows[j].(isActive := active) else rows[j])
  }

  /** `activate` as intended: the chosen video is the active one and no other is. */
  function Activated(rows: seq<Video>, id: nat): (r: seq<Video>)
    ensures |r| == |rows|
    ensures forall j :: 0 <= j < |r| ==> r[j].(isActive := rows[j].isActive) == rows[j]
    ensures forall j :: 0 <= j < |r| ==> (r[j].isActive <==> rows[j].id == id)
  {
    SetActive(Deactivated(rows), id, true)
  }

  /**
   * `activate` as written. `$video` was loaded before the bulk update, and
   * Eloquent's `update()` writes only attributes that differ from the loaded
   * ones: when the video was already active the second statement writes
   * nothing, and the bulk update has just switched it off.
   */
  function ActivateAsWritten(rows: seq<Video>, loaded: Video): (r: seq<Video>)
    ensures |r| == |rows|
    ensures forall j :: 0 <= j < |r| ==> r[j].(isActive := rows[j].isActive) == rows[j]
    ensures !loaded.isActive ==> r == Activated(rows, loaded.id)
  {
    var cleared := Deactivated(rows);
    if loaded.isActive then cleared else SetActive(cleared, loaded.id, true)
  }

  /**
   * Activating the video that is already active leaves no video active at all,
   * where the intended `activate` leaves it active.
   */
  lemma ActivateAsWrittenLosesActive(rows: seq<Video>, loaded: Video)
    requires loaded in rows && loaded.isActive
    ensures forall j :: 0 <= j < |rows| ==> !ActivateAsWritten(rows, loaded)[j].isActive
    ensures exists j :: 0 <= j < |rows| && Activated(rows, loaded.id)[j].isActive
  {
    var j :| 0 <= j < |rows| && rows[j] == loaded;
    assert Activated(rows, loaded.id)[j].isActive;
  }

  /** After `activate`, exactly the chosen video is active, and only the flags changed. */
  lemma ActivatedHasOnlyIt(rows: seq<Video>, id: nat)
    requires IdsAscending(rows)
    ensures var r := Activated(rows, id);
            && AtMostOneActive(r)
            && (forall j :: 0 <= j < |r| ==> (r[j].isActive <==> rows[j].id == id))
            && (forall j :: 0 <= j < |r| ==> r[j].(isActive := rows[j].isActive) == rows[j])
  {
  }

  /** `deactivate` keeps the one-active rule wherever it held. */
  lemma DeactivateKeepsAtMostOne(rows: seq<Video>, id: nat)
    requires AtMostOneActive(rows)
    ensures AtMostOneActive(SetActive(rows, id, false))
  {
    var r := SetActive(rows, id, false);
    forall i, j | 0 <= i < |r| && 0 <= j < |r| && r[i].isActive && r[j].isActive
      ensures i == j
    {
      assert rows[i].isActive && rows[j].isActive;
    }
  }

  // ---------------------------------------------------------------------------
  // Visitor-side selections
  // ---------------------------------------------------------------------------

  /** `Video::where('is_active', true)->latest()->first()`: an active video with the latest `created_at`. */
  function LatestActive(rows: seq<Video>): (r: Option<Video>)
    ensures r.None? <==> forall j :: 0 <= j < |rows| ==> !rows[j].isActive
    ensures r.Some? ==> r.value in rows && r.value.isActive
    ensures r.Some? ==> forall j :: 0 <= j < |rows| && rows[j].isActive ==> rows[j].createdAt <= r.value.createdAt
    decreases |rows|
  {
    if |rows| == 0 then None
    else
      var rest := LatestActive(rows[1..]);
      assert forall j :: 1 <= j < |rows| ==> rows[j] == rows[1..][j - 1];
      if !rows[0].isActive then rest
      else if rest.Some? && rows[0].createdAt < rest.value.createdAt then rest
      else Some(rows[0])
  }

  /** `watch`: the video with this public token, only while it is active; otherwise 404. */
  function Watch(rows: seq<Video>, token: string): (r: Option<Video>)
    ensures r.Some? ==> r.value in rows && r.value.publicToken == token && r.value.isActive
    ensures r.None? <==> forall j :: 0 <= j < |rows| ==> !(rows[j].publicToken == token && rows[j].isActive)
    decreases |rows|
  {
    if |rows| == 0 then None
    else if rows[0].publicToken == token && rows[0].isActive then Some(rows[0])
    else
      var rest := Watch(rows[1..], token);
      assert forall j :: 1 <= j < |rows| ==> rows[j] == rows[1..][j - 1];
      rest
  }

  /** `list`: id and title of every active video, by ascending id. */
  function ListActive(rows: seq<Video>): (r: seq<(nat, string)>)
    ensures |r| <= |rows|
    ensures r == [] <==> forall j :: 0 <= j < |rows| ==> !rows[j].isActive
    decreases |rows|
  {
    if |rows| == 0 then []
    else if rows[0].isActive then [(rows[0].id, rows[0].title)] + ListActive(rows[1..])
    else ListActive(rows[1..])
  }

  /** `e` is the id and title of an active video. */
  predicate Listed(rows: seq<Video>, e: (nat, string)) {
    exists j :: 0 <= j < |rows| && rows[j].isActive && e == (rows[j].id, rows[j].title)
  }

  /** Everything `list` returns is an active video. */
  lemma {:induction false} ListActiveSound(rows: seq<Video>)
    ensures forall k :: 0 <= k < |ListActive(rows)| ==> Listed(rows, ListActive(rows)[k])
    decreases |rows|
  {
    if |rows| > 0 {
      var tail := rows[1..];
      ListActiveSound(tail);
      var rest := ListActive(tail);
      forall k | 0 <= k < |rest|
        ensures Listed(rows, rest[k])
      {
        var j :| 0 <= j < |tail| && tail[j].isActive && rest[k] == (tail[j].id, tail[j].title);
        assert rows[j + 1] == tail[j];
      }
      if rows[0].isActive {
        var r := ListActive(rows);
        assert r == [(rows[0].id, rows[0].title)] + rest;
        assert Listed(rows, r[0]);
        assert forall k :: 1 <= k < |r| ==> r[k] == rest[k - 1];
      }
    }
  }

  /** Every active video is in `list`. */
  lemma {:induction false} ListActiveComplete(rows: seq<Video>)
    ensures forall j :: 0 <= j < |rows| && rows[j].isActive ==> (rows[j].id, rows[j].title) in ListActive(rows)
    decreases |rows|
  {
    if |rows| > 0 {
      var tail := rows[1..];
      ListActiveComplete(tail);
      assert forall j :: 1 <= j < |rows| ==> rows[j] == tail[j - 1];
    }
  }

  /** `list` is ordered by ascending id (so no video appears twice). */
  lemma {:induction false} ListActiveSorted(rows: seq<Video>)
    requires IdsAscending(rows)
    ensures forall k, l :: 0 <= k < l < |ListActive(rows)| ==> ListActive(rows)[k].0 < ListActive(rows)[l].0
    decreases |rows|
  {
    if |rows| > 0 && rows[0].isActive {
      var tail := rows[1..];
      ListActiveSorted(tail);
      ListActiveSound(tail);
      var rest := ListActive(tail);
      forall k | 0 <= k < |rest|
        ensures rows[0].id < rest[k].0
      {
        assert Listed(tail, rest[k]);
        var j :| 0 <= j < |tail| && tail[j].isActive && rest[k] == (tail[j].id, tail[j].title);
        assert rows[j + 1] == tail[j];
      }
      var r := ListActive(rows);
      assert forall k :: 1 <= k < |r| ==> r[k] == rest[k - 1];
    } else if |rows| > 0 {
      ListActiveSorted(rows[1..]);
    }
  }

  /** After `activate(v)`, `active` returns `v` and `watch` serves it. */
  lemma ActiveAfterActivate(rows: seq<Video>, j: nat)
    requires IdsAscending(rows) && j < |rows|
    ensures var r := Activated(rows, rows[j].id);
            && LatestActive(r) == Some(r[j])
            && Watch(r, rows[j].publicToken).Some?
  {
    var r := Activated(rows, rows[j].id);
    ActivatedHasOnlyIt(rows, rows[j].id);
    assert r[j].isActive;
    var l := LatestActive(r);
    var k :| 0 <= k < |r| && r[k] == l.value;
    assert k == j;
  }

  // ---------------------------------------------------------------------------
  // Upload
  // ---------------------------------------------------------------------------

  /** An uploaded file as the validator sees it: its guessed extension and its size in kilobytes. */
  datatype Upload = Upload(extension: string, kilobytes: nat)

  /** `title`: `required|string|max:255`, checked on the normalized input. */
  predicate ValidTitle(title: Option<string>) {
    Normalized(title).Some? && |Normalized(title).value| <= 255
  }

  /** `video`: `required|file|mimes:mp4,webm|max:512000` (kilobytes, 500 MB). */
  predicate ValidUpload(file: Option<Upload>) {
    && file.Some?
    && (file.value.extension == "mp4" || file.value.extension == "webm")
    && file.value.kilobytes <= 512000
  }

  /** What `store` answers: 422 on invalid input, 500 after a rollback, or the new video. */
  datatype StoreReply = ValidationFailed | StoreFailed | Stored(video: Video)

  /** The table after a committed `store`: every old video off, the new one appended and active. */
  function WithNewActive(rows: seq<Video>, v: Video): (r: seq<Video>)
    requires v.isActive
    ensures |r| == |rows| + 1 && r[|rows|] == v && AtMostOneActive(r)
    ensures forall j :: 0 <= j < |r| ==> (r[j].isActive <==> j == |rows|)
  {
    Deactivated(rows) + [v]
  }

  /** After a committed `store`, `active` returns the new video. */
  lemma ActiveAfterStore(rows: seq<Video>, v: Video)
    requires v.isActive
    ensures LatestActive(WithNewActive(rows, v)) == Some(v)
  {
    var r := WithNewActive(rows, v);
    var l := LatestActive(r);
    var k :| 0 <= k < |r| && r[k] == l.value;
    assert k == |rows|;
  }

  /** The `videos` table. */
  class VideoTable {
    var rows: seq<Video>
    var nextId: nat

    ghost predicate Valid()
      reads this
    {
      IdsAscending(rows) && forall j :: 0 <= j < |rows| ==> rows[j].id < nextId
    }

    constructor ()
      ensures Valid() && rows == [] && nextId == 1
    {
      rows := [];
      nextId := 1;
    }

    /** The route binding: the index of the video with `id`, if any (404 otherwise). */
    function Find(id: nat): (r: Option<nat>)
      reads this
      ensures r.Some? ==> r.value < |rows| && rows[r.value].id == id
      ensures r.None? <==> !HasId(rows, id)
    {
      FindIn(rows, id)
    }

    /** `activate`, with the intended effect: the chosen video becomes the only active one. */
    method Activate(id: nat) returns (found: bool)
      requires Valid()
      modifies this
      ensures Valid() && nextId == old(nextId)
      ensures found <==> HasId(old(rows), id)
      ensures rows == if found then Activated(old(rows), id) else old(rows)
    {
      var i := Find(id);
      if i.None? {
        return false;
      }
      rows := Deactivated(rows);
      rows := SetActive(rows, id, true);
      found := true;
    }

    /** `deactivate`: clear the chosen video's flag and no other. */
    method Deactivate(id: nat) returns (found: bool)
      requires Valid()
      modifies this
      ensures Valid() && nextId == old(nextId)
      ensures found <==> HasId(old(rows), id)
      ensures rows == if found then SetActive(old(rows), id, false) else old(rows)
    {
      var i := Find(id);
      if i.None? {
        return false;
      }
      rows := SetActive(rows, id, false);
      found := true;
    }

    /**
     * `store`: validate, then in one transaction switch every video off, save
     * the file and insert the new video as active. `title` and `description`
     * are the raw inputs, which the global middleware trims and turns into
     * null when empty. `path` is where the file was saved (None: writing it
     * threw), `token` the generated public token (unique: a clash makes the
     * insert throw), `now` the creation time. A throw rolls the table back.
     */
    method Store(title: Option<string>, description: Option<string>, file: Option<Upload>,
                 path: Option<string>, token: string, now: nat) returns (r: StoreReply)
      requires Valid()
      modifies this
      ensures Valid()
      ensures !(ValidTitle(title) && ValidUpload(file)) ==> r == ValidationFailed && rows == old(rows) && nextId == old(nextId)
      ensures r == StoreFailed <==>
                ValidTitle(title) && ValidUpload(file) &&
                (path.None? || exists j :: 0 <= j < |old(rows)| && old(rows)[j].publicToken == token)
      ensures r == StoreFailed ==> rows == old(rows) && nextId == old(nextId)
      ensures r.Stored? ==>
                && r.video == Video(old(nextId), Normalized(title).value, Normalized(description), path.value, token, true, now)
                && rows == WithNewActive(old(rows), r.video)
                && nextId == old(nextId) + 1
    {
      if !ValidTitle(title) || !ValidUpload(file) {
        return ValidationFailed;
      }
      var before := rows;
      rows := Deactivated(rows);
      if path.None? || exists j :: 0 <= j < |rows| && rows[j].publicToken == token {
        rows := before;
        return StoreFailed;
      }
      var v := Video(nextId, Normalized(title).value, Normalized(description), path.value, token, true, now);
      rows := rows + [v];
      nextId := nextId + 1;
      r := Stored(v);
    }
  }

  /** The index of the video with `id`. */
  function FindIn(rows: seq<Video>, id: nat): (r: Option<nat>)
    ensures r.Some? ==> r.value < |rows| && rows[r.value].id == id
    ensures r.None? <==> !HasId(rows, id)
    decreases |rows|
  {
    if |rows| == 0 then None
    else if rows[0].id == id then Some(0)
    else
      var rest := FindIn(rows[1..], id);
      assert forall j :: 1 <= j < |rows| ==> rows[j] == rows[1..][j - 1];
      if rest.None? then None else Some(rest.value + 1)
  }
}
