/** The bookkeeping rows of a tracked scan: one ScanHistory per run, the
    ScanError rows logged during it, and the single-row ScanLock that keeps
    two tracked scans from running at once. */
module ScanHistoryModel {
  import opened Common

  datatype ScanStatus = Pending | Running | Completed | Failed | Partial

  /** The status a run moves through: created PENDING, then RUNNING once the
      lock is held, or FAILED straight away when the lock is refused; a
      running scan ends COMPLETED, PARTIAL or FAILED, and an ended scan
      never changes status again. */
  predicate CanMove(from: ScanStatus, to: ScanStatus)
  {
    match from
    case Pending => to == Running || to == Failed
    case Running => to == Completed || to == Partial || to == Failed
    case _ => false
  }

  predicate IsFinal(s: ScanStatus)
  {
    s == Completed || s == Failed || s == Partial
  }

  /** One run. Timestamps are plain integers; a missing one is None. */
  datatype ScanHistory = ScanHistory(
    id: nat,
    startedById: nat,
    startedAt: int,
    completedAt: Option<int>,
    status: ScanStatus,
    rootPath: string,
    categoriesFound: nat,
    coursesFound: nat,
    filesAdded: nat,
    filesUpdated: nat,
    filesRemoved: nat,
    errorsCount: nat,
    message: Option<string>,
    errorMessage: Option<string>)

  /** A freshly created record: PENDING, every counter zero, not completed. */
  function NewScanHistory(id: nat, userId: nat, now: int, rootPath: string): (h: ScanHistory)
    ensures h.status == Pending && !IsFinal(h.status)
    ensures h.completedAt == None && h.message == None && h.errorMessage == None
    ensures h.categoriesFound == h.coursesFound == 0
    ensures h.filesAdded == h.filesUpdated == h.filesRemoved == h.errorsCount == 0
    ensures h.id == id && h.startedById == userId && h.startedAt == now && h.rootPath == rootPath
  {
    ScanHistory(id, userId, now, None, Pending, rootPath, 0, 0, 0, 0, 0, 0, None, None)
  }

  /** An error logged during a run; it always names the run it belongs to. */
  datatype ScanError = ScanError(
    scanId: nat,
    filePath: string,
    errorType: string,
    errorMessage: string,
    createdAt: int)

  /** The lock row (always id 1): whether it is held and, if so, by whom,
      since when and for which run. */
  datatype ScanLock = ScanLock(
    id: nat,
    isLocked: bool,
    lockedById: Option<nat>,
    lockedAt: Option<int>,
    scanId: Option<nat>)

  /** The row as first created: id 1, not held, no holder recorded. */
  const FreeLock: ScanLock := ScanLock(1, false, None, None, None)
}
