/** The operation lock shared by backup and restore: a table of lock rows,
    at most one of them `in_progress` when calls run one after another. */
module LockServiceModel {
  import opened Common

  datatype LockStatus = InProgress | Completed | ForceReleased

  /** One row of the `operation_lock` table. */
  datatype OperationLock = OperationLock(
    id: nat,
    operationType: string,
    lockedById: nat,
    lockedAt: int,
    status: LockStatus)

  /** The row matched by `status == 'in_progress'` (and, when given, by the
      operation type): the first such row in table order, or -1. */
  function FirstInProgress(locks: seq<OperationLock>, operationType: Option<string>): (r: int)
    ensures -1 <= r < |locks|
    ensures r >= 0 ==> locks[r].status == InProgress
                       && (operationType.Some? ==> locks[r].operationType == operationType.value)
    ensures forall j :: 0 <= j < |locks| && (r < 0 || j < r) ==>
              !(locks[j].status == InProgress
                && (operationType.Some? ==> locks[j].operationType == operationType.value))
    decreases |locks|
  {
    if |locks| == 0 then -1
    else if locks[0].status == InProgress && (operationType.None? || locks[0].operationType == operationType.value) then 0
    else
      var r := FirstInProgress(locks[1..], operationType);
      if r < 0 then -1 else r + 1
  }

  /** Some row is in progress. */
  predicate AnyInProgress(locks: seq<OperationLock>)
  {
    exists i :: 0 <= i < |locks| && locks[i].status == InProgress
  }

  /** At most one row is in progress. */
  predicate AtMostOneInProgress(locks: seq<OperationLock>)
  {
    forall i, j :: 0 <= i < |locks| && 0 <= j < |locks| && locks[i].status == InProgress && locks[j].status == InProgress
      ==> i == j
  }

  /** `acquire_lock`: refused while any row is in progress, whatever its
      type; otherwise one new in-progress row is appended. */
  function Acquired(locks: seq<OperationLock>, operationType: string, userId: nat, now: int): (r: (bool, seq<OperationLock>))
    ensures r.0 ==> !AnyInProgress(locks)
    ensures r.0 ==> |r.1| == |locks| + 1 && r.1[..|locks|] == locks && r.1[|locks|].status == InProgress
                    && r.1[|locks|].operationType == operationType && r.1[|locks|].lockedById == userId
    ensures !r.0 ==> r.1 == locks
  {
    if FirstInProgress(locks, None) >= 0 then (false, locks)
    else (true, locks + [OperationLock(|locks| + 1, operationType, userId, now, InProgress)])
  }

  /** `release_lock`: the first in-progress row of the type completes. */
  function Released(locks: seq<OperationLock>, operationType: string): (r: (bool, seq<OperationLock>))
    ensures |r.1| == |locks|
    ensures !r.0 ==> r.1 == locks
    ensures forall i :: 0 <= i < |locks| && r.1[i] != locks[i] ==>
              locks[i].status == InProgress && locks[i].operationType == operationType
              && r.1[i] == locks[i].(status := Completed)
  {
    var i := FirstInProgress(locks, Some(operationType));
    if i < 0 then (false, locks) else (true, locks[i := locks[i].(status := Completed)])
  }

  /** `force_release_lock`: every in-progress row becomes force-released. */
  function ForceReleasedAll(locks: seq<OperationLock>): (r: seq<OperationLock>)
    ensures |r| == |locks|
    ensures forall i :: 0 <= i < |r| ==>
              r[i].status != InProgress && r[i].(status := locks[i].status) == locks[i]
              && (locks[i].status != InProgress ==> r[i] == locks[i])
  {
    seq(|locks|, i requires 0 <= i < |locks| =>
      if locks[i].status == InProgress then locks[i].(status := ForceReleased) else locks[i])
  }

  /** Acquisition succeeds exactly when nothing is in progress, and then
      appends the one row it holds; acquisitions one after another keep at
      most one row in progress. */
  lemma AcquireExcludes(locks: seq<OperationLock>, operationType: string, userId: nat, now: int)
    ensures var (ok, after) := Acquired(locks, operationType, userId, now);
      && (ok <==> !AnyInProgress(locks))
      && (AtMostOneInProgress(locks) ==> AtMostOneInProgress(after))
  {
    var i := FirstInProgress(locks, None);
    if i >= 0 {
      assert AnyInProgress(locks);
    }
  }

  /** Releasing completes exactly one in-progress row of the given type if
      there is one, and never touches a row of another type; it keeps at
      most one row in progress. */
  lemma ReleaseOnlyItsType(locks: seq<OperationLock>, operationType: string)
    ensures var (ok, after) := Released(locks, operationType);
      && (ok <==> exists i :: 0 <= i < |locks| && locks[i].status == InProgress && locks[i].operationType == operationType)
      && (forall i :: 0 <= i < |locks| && locks[i].operationType != operationType ==> after[i] == locks[i])
      && (AtMostOneInProgress(locks) ==> AtMostOneInProgress(after))
  {
    var i := FirstInProgress(locks, Some(operationType));
    if i < 0 {
      forall j | 0 <= j < |locks|
        ensures !(locks[j].status == InProgress && locks[j].operationType == operationType)
      {
      }
    }
  }

  /** After a forced release nothing is in progress, every other row is as
      it was, and the next acquisition succeeds. */
  lemma ForceReleaseFrees(locks: seq<OperationLock>, operationType: string, userId: nat, now: int)
    ensures !AnyInProgress(ForceReleasedAll(locks))
    ensures Acquired(ForceReleasedAll(locks), operationType, userId, now).0
  {
    AcquireExcludes(ForceReleasedAll(locks), operationType, userId, now);
  }

  /** The lock table, with the operations of `LockService`. */
  class LockService {
    var locks: seq<OperationLock>

    constructor (locks: seq<OperationLock>)
      ensures this.locks == locks
    {
      this.locks := locks;
    }

    method AcquireLock(operationType: string, userId: nat, now: int) returns (ok: bool)
      modifies this
      ensures (ok, locks) == Acquired(old(locks), operationType, userId, now)
    {
      if FirstInProgress(locks, None) >= 0 {
        return false;
      }
      locks := locks + [OperationLock(|locks| + 1, operationType, userId, now, InProgress)];
      return true;
    }

    method ReleaseLock(operationType: string) returns (ok: bool)
      modifies this
      ensures (ok, locks) == Released(old(locks), operationType)
    {
      var i := FirstInProgress(locks, Some(operationType));
      if i >= 0 {
        locks := locks[i := locks[i].(status := Completed)];
        return true;
      }
      return false;
    }

    /** `check_lock_status`: the first in-progress row, if any. */
    function CheckLockStatus(): (r: Option<OperationLock>)
      reads this
      ensures r.Some? <==> AnyInProgress(locks)
      ensures r.Some? ==> r.value in locks && r.value.status == InProgress
    {
      var i := FirstInProgress(locks, None);
      if i >= 0 then Some(locks[i]) else None
    }

    /** `force_release_lock`: always succeeds. */
    method ForceReleaseLock(userId: nat) returns (ok: bool)
      modifies this
      ensures ok && locks == ForceReleasedAll(old(locks))
    {
      var i := 0;
      while i < |locks|
        invariant 0 <= i <= |locks| == |old(locks)|
        invariant forall j :: 0 <= j < i ==> locks[j] == ForceReleasedAll(old(locks))[j]
        invariant forall j :: i <= j < |locks| ==> locks[j] == old(locks)[j]
      {
        if locks[i].status == InProgress {
          locks := locks[i := locks[i].(status := ForceReleased)];
        }
        i := i + 1;
      }
      return true;
    }
  }
}
