/** The progress endpoints: reading and upserting a user's progress on a
    file, and the single last-viewed record per user. Every endpoint is
    open to the user themselves and to administrators only. Timestamps are
    a parameter `now`. */
module ProgressEndpoint {
  import opened Common
  import opened AuthorizationService

  const NotAuthorizedMessage: string := "Not authorized"
  const ProgressNotFoundMessage: string := "Progress not found"
  const NoLastViewedMessage: string := "No last viewed record found"

  datatype ProgressStatus = NotStarted | InProgress | Completed

  /** One row of `user_progress`. */
  datatype Progress = Progress(id: nat, userId: nat, fileId: nat, status: ProgressStatus,
                               lastPosition: Option<int>, completedAt: Option<int>, updatedAt: int)

  /** One row of `last_viewed`. */
  datatype LastViewed = LastViewed(id: nat, userId: nat, courseId: nat, fileId: nat, timestamp: int)

  /** The body of `update_progress`. */
  datatype ProgressCreate = ProgressCreate(userId: nat, fileId: nat, status: ProgressStatus, lastPosition: Option<int>)

  /** The body of `set_last_viewed`. */
  datatype LastViewedCreate = LastViewedCreate(userId: nat, courseId: nat, fileId: nat)

  /** The guard every endpoint starts with. */
  predicate Authorized(caller: User, userId: nat)
  {
    caller.id == userId || caller.isAdmin
  }

  /** Position of the first row for (user, file), -1 when there is none. */
  function FindProgress(rows: seq<Progress>, userId: nat, fileId: nat): (r: int)
    ensures -1 <= r < |rows|
    ensures r >= 0 ==> rows[r].userId == userId && rows[r].fileId == fileId
    ensures r < 0 <==> forall p :: p in rows ==> !(p.userId == userId && p.fileId == fileId)
    decreases |rows|
  {
    if |rows| == 0 then -1
    else if rows[0].userId == userId && rows[0].fileId == fileId then 0
    else
      var r := FindProgress(rows[1..], userId, fileId);
      assert forall p :: p in rows ==> p == rows[0] || p in rows[1..];
      if r < 0 then -1 else r + 1
  }

  /** Position of the first last-viewed row of a user, -1 when there is none. */
  function FindLastViewed(rows: seq<LastViewed>, userId: nat): (r: int)
    ensures -1 <= r < |rows|
    ensures r >= 0 ==> rows[r].userId == userId
    ensures r < 0 <==> forall v :: v in rows ==> v.userId != userId
    decreases |rows|
  {
    if |rows| == 0 then -1
    else if rows[0].userId == userId then 0
    else
      var r := FindLastViewed(rows[1..], userId);
      assert forall v :: v in rows ==> v == rows[0] || v in rows[1..];
      if r < 0 then -1 else r + 1
  }

  /** At most one progress row per (user, file). */
  predicate OnePerFile(rows: seq<Progress>)
  {
    forall i, j :: 0 <= i < |rows| && 0 <= j < |rows| && i != j ==>
      !(rows[i].userId == rows[j].userId && rows[i].fileId == rows[j].fileId)
  }

  /** At most one last-viewed row per user. */
  predicate OnePerUser(rows: seq<LastViewed>)
  {
    forall i, j :: 0 <= i < |rows| && 0 <= j < |rows| && i != j ==> rows[i].userId != rows[j].userId
  }

  /** The rows of one user, in table order. */
  function ProgressOf(rows: seq<Progress>, userId: nat): (r: seq<Progress>)
    ensures forall p :: p in r <==> p in rows && p.userId == userId
    decreases |rows|
  {
    if |rows| == 0 then []
    else
      var rest := ProgressOf(rows[1..], userId);
      assert forall p :: p in rows ==> p == rows[0] || p in rows[1..];
      if rows[0].userId == userId then [rows[0]] + rest else rest
  }

  class ProgressEndpoint {
    var progress: seq<Progress>
    var lastViewed: seq<LastViewed>
    var nextProgressId: nat
    var nextLastViewedId: nat

    /** At most one progress row per user and file, and one last-viewed row
        per user. The tables have no unique constraint on these columns:
        the invariant holds because each request looks before it inserts,
        and requests are atomic here (two concurrent first views of a file
        could insert two rows). */
    ghost predicate Valid()
      reads this
    {
      OnePerFile(progress) && OnePerUser(lastViewed)
    }

    constructor (progress: seq<Progress>, lastViewed: seq<LastViewed>, nextProgressId: nat, nextLastViewedId: nat)
      requires OnePerFile(progress) && OnePerUser(lastViewed)
      ensures Valid()
      ensures this.progress == progress && this.lastViewed == lastViewed
      ensures this.nextProgressId == nextProgressId && this.nextLastViewedId == nextLastViewedId
    {
      this.progress := progress;
      this.lastViewed := lastViewed;
      this.nextProgressId := nextProgressId;
      this.nextLastViewedId := nextLastViewedId;
    }

    /** `get_user_progress`: 403 for a stranger, else every row of the user. */
    function GetUserProgress(userId: nat, caller: User): (r: Response<seq<Progress>>)
      reads this
      ensures r.Failure? <==> !Authorized(caller, userId)
      ensures r.Failure? ==> r == Failure(Forbidden, NotAuthorizedMessage)
      ensures r.Success? ==> forall p :: p in r.body <==> p in progress && p.userId == userId
    {
      if !Authorized(caller, userId) then Failure(Forbidden, NotAuthorizedMessage)
      else Success(ProgressOf(progress, userId))
    }

    /** `get_progress_for_file`: 403 for a stranger, 404 without a row,
        else the row for (user, file). */
    function GetProgressForFile(userId: nat, fileId: nat, caller: User): (r: Response<Progress>)
      reads this
      ensures !Authorized(caller, userId) ==> r == Failure(Forbidden, NotAuthorizedMessage)
      ensures Authorized(caller, userId) && (forall p :: p in progress ==> !(p.userId == userId && p.fileId == fileId)) ==>
                r == Failure(NotFound, ProgressNotFoundMessage)
      ensures r.Success? ==> r.body in progress && r.body.userId == userId && r.body.fileId == fileId
    {
      if !Authorized(caller, userId) then Failure(Forbidden, NotAuthorizedMessage)
      else
        var i := FindProgress(progress, userId, fileId);
        if i < 0 then Failure(NotFound, ProgressNotFoundMessage) else Success(progress[i])
    }

    /** `update_progress`: 403 for a stranger; otherwise the row for
        (user, file) is updated in place, or created when there is none.
        "completed" stamps `completedAt`; another status keeps the old
        stamp on update and has none on create. */
    method UpdateProgress(data: ProgressCreate, caller: User, now: int) returns (r: Response<Progress>)
      requires Valid()
      modifies this
      ensures Valid()
      ensures lastViewed == old(lastViewed) && nextLastViewedId == old(nextLastViewedId)
      ensures !Authorized(caller, data.userId) ==>
                r == Failure(Forbidden, NotAuthorizedMessage) && progress == old(progress) && nextProgressId == old(nextProgressId)
      ensures Authorized(caller, data.userId) ==>
                r.Success? && r.body.userId == data.userId && r.body.fileId == data.fileId
                && r.body.status == data.status && r.body.lastPosition == data.lastPosition && r.body.updatedAt == now
                && GetProgressForFile(data.userId, data.fileId, caller) == r
      ensures Authorized(caller, data.userId) && data.status == Completed ==> r.body.completedAt == Some(now)
      ensures var i := FindProgress(old(progress), data.userId, data.fileId);
              Authorized(caller, data.userId) && i >= 0 ==>
                progress == old(progress)[i := r.body] && r.body.id == old(progress)[i].id
                && (data.status != Completed ==> r.body.completedAt == old(progress)[i].completedAt)
                && nextProgressId == old(nextProgressId)
      ensures Authorized(caller, data.userId) && FindProgress(old(progress), data.userId, data.fileId) < 0 ==>
                progress == old(progress) + [r.body] && r.body.id == old(nextProgressId)
                && (data.status != Completed ==> r.body.completedAt == None)
                && nextProgressId == old(nextProgressId) + 1
    {
      if !Authorized(caller, data.userId) {
        return Failure(Forbidden, NotAuthorizedMessage);
      }
      var i := FindProgress(progress, data.userId, data.fileId);
      var row: Progress;
      if i >= 0 {
        var existing := progress[i];
        row := existing.(status := data.status, lastPosition := data.lastPosition, updatedAt := now,
                         completedAt := if data.status == Completed then Some(now) else existing.completedAt);
        progress := progress[i := row];
        assert FindProgress(progress, data.userId, data.fileId) == i by {
          FindProgressAfterUpdate(old(progress), i, row);
        }
      } else {
        row := Progress(nextProgressId, data.userId, data.fileId, data.status, data.lastPosition,
                        if data.status == Completed then Some(now) else None, now);
        ghost var before := progress;
        progress := progress + [row];
        nextProgressId := nextProgressId + 1;
        FindProgressAfterAppend(before, row);
      }
      return Success(row);
    }

    /** `get_last_viewed`: 403 for a stranger, 404 without a row. */
    function GetLastViewed(userId: nat, caller: User): (r: Response<LastViewed>)
      reads this
      ensures !Authorized(caller, userId) ==> r == Failure(Forbidden, NotAuthorizedMessage)
      ensures Authorized(caller, userId) && (forall v :: v in lastViewed ==> v.userId != userId) ==>
                r == Failure(NotFound, NoLastViewedMessage)
      ensures r.Success? ==> r.body in lastViewed && r.body.userId == userId
    {
      if !Authorized(caller, userId) then Failure(Forbidden, NotAuthorizedMessage)
      else
        var i := FindLastViewed(lastViewed, userId);
        if i < 0 then Failure(NotFound, NoLastViewedMessage) else Success(lastViewed[i])
    }

    /** `set_last_viewed`: 403 for a stranger; otherwise the user's single
        row is overwritten in place, or created when there is none. */
    method SetLastViewed(data: LastViewedCreate, caller: User, now: int) returns (r: Response<LastViewed>)
      requires Valid()
      modifies this
      ensures Valid()
      ensures progress == old(progress) && nextProgressId == old(nextProgressId)
      ensures !Authorized(caller, data.userId) ==>
                r == Failure(Forbidden, NotAuthorizedMessage) && lastViewed == old(lastViewed)
                && nextLastViewedId == old(nextLastViewedId)
      ensures Authorized(caller, data.userId) ==>
                r.Success? && r.body.userId == data.userId && r.body.courseId == data.courseId
                && r.body.fileId == data.fileId && r.body.timestamp == now
                && GetLastViewed(data.userId, caller) == r
      ensures var i := FindLastViewed(old(lastViewed), data.userId);
              Authorized(caller, data.userId) && i >= 0 ==>
                lastViewed == old(lastViewed)[i := r.body] && r.body.id == old(lastViewed)[i].id
                && nextLastViewedId == old(nextLastViewedId)
      ensures Authorized(caller, data.userId) && FindLastViewed(old(lastViewed), data.userId) < 0 ==>
                lastViewed == old(lastViewed) + [r.body] && r.body.id == old(nextLastViewedId)
                && nextLastViewedId == old(nextLastViewedId) + 1
    {
      if !Authorized(caller, data.userId) {
        return Failure(Forbidden, NotAuthorizedMessage);
      }
      var i := FindLastViewed(lastViewed, data.userId);
      var row: LastViewed;
      if i >= 0 {
        row := lastViewed[i].(courseId := data.courseId, fileId := data.fileId, timestamp := now);
        ghost var before := lastViewed;
        lastViewed := lastViewed[i := row];
        FindLastViewedAfterUpdate(before, i, row);
      } else {
        row := LastViewed(nextLastViewedId, data.userId, data.courseId, data.fileId, now);
        ghost var before := lastViewed;
        lastViewed := lastViewed + [row];
        nextLastViewedId := nextLastViewedId + 1;
        FindLastViewedAfterAppend(before, row);
      }
      return Success(row);
    }
  }

  /** Overwriting the found row with one of the same key keeps the table to
      one row per key, and the lookup finds the new row. */
  lemma {:induction false} FindProgressAfterUpdate(rows: seq<Progress>, i: nat, row: Progress)
    requires OnePerFile(rows) && i < |rows| && i == FindProgress(rows, row.userId, row.fileId)
    ensures OnePerFile(rows[i := row])
    ensures FindProgress(rows[i := row], row.userId, row.fileId) == i
  {
    var after := rows[i := row];
    assert after[i] in after;
    assert forall k :: 0 <= k < |after| && k != i ==>
      (after[k] == rows[k] && !(after[k].userId == row.userId && after[k].fileId == row.fileId));
  }

  /** Appending a row for an absent key keeps one row per key, and the
      lookup finds it. */
  lemma {:induction false} FindProgressAfterAppend(rows: seq<Progress>, row: Progress)
    requires OnePerFile(rows) && FindProgress(rows, row.userId, row.fileId) < 0
    ensures OnePerFile(rows + [row])
    ensures FindProgress(rows + [row], row.userId, row.fileId) == |rows|
  {
    var after := rows + [row];
    assert forall k :: 0 <= k < |rows| ==> after[k] == rows[k] && after[k] in rows;
    assert after[|rows|] in after;
  }

  lemma {:induction false} FindLastViewedAfterUpdate(rows: seq<LastViewed>, i: nat, row: LastViewed)
    requires OnePerUser(rows) && i < |rows| && i == FindLastViewed(rows, row.userId)
    ensures OnePerUser(rows[i := row])
    ensures FindLastViewed(rows[i := row], row.userId) == i
  {
    var after := rows[i := row];
    assert after[i] in after;
    assert forall k :: 0 <= k < |after| && k != i ==> after[k] == rows[k] && after[k].userId != row.userId;
  }

  lemma {:induction false} FindLastViewedAfterAppend(rows: seq<LastViewed>, row: LastViewed)
    requires OnePerUser(rows) && FindLastViewed(rows, row.userId) < 0
    ensures OnePerUser(rows + [row])
    ensures FindLastViewed(rows + [row], row.userId) == |rows|
  {
    var after := rows + [row];
    assert forall k :: 0 <= k < |rows| ==> after[k] == rows[k] && after[k] in rows;
    assert after[|rows|] in after;
  }
}
