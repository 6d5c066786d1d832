/** The tracked scan (`ReliableScannerService`): a scan record that moves
    through the status machine, the single-row scan lock taken around the
    scan, and the extension rejections of the scan logged as ScanError rows
    and counted. `TrackedRun` states what one run produces; the service's
    methods are proved to produce it. */
module ReliableScanner {
  import opened Common
  import opened FileNodeModel
  import opened ScanHistoryModel
  import Config
  import SecurityUtils
  import opened ScannerService

  /** The lock row exists and is held. */
  predicate Held(lock: Option<ScanLock>)
  {
    lock.Some? && lock.value.isLocked
  }

  const LockBusyPrefix: string := "Scan already in progress (started at "

  /** The refusal message of `acquire_lock`: it names when the run holding
      the lock took it, with `locked_at` written as `str` renders it
      (`timeText`, which gives "None" for a null column). */
  function LockBusyMessage(lockedAt: Option<int>, timeText: Option<int> -> string): (m: string)
    ensures |m| == |LockBusyPrefix| + |timeText(lockedAt)| + 1
    ensures m[..|LockBusyPrefix|] == LockBusyPrefix && m[|m| - 1] == ')'
    ensures m[|LockBusyPrefix|..|m| - 1] == timeText(lockedAt)
  {
    LockBusyPrefix + timeText(lockedAt) + ")"
  }

  /** The status a run that reached the scanner ends in. */
  function FinalStatus(success: bool, errorCount: nat): (s: ScanStatus)
    ensures IsFinal(s) && CanMove(Running, s)
    ensures s == Completed <==> success && errorCount == 0
    ensures s == Partial <==> success && errorCount > 0
    ensures s == Failed <==> !success
  {
    if success then (if errorCount > 0 then Partial else Completed) else Failed
  }

  /** The message the extension check gives for a rejected name. */
  function ExtensionError(fileName: string, allowed: seq<string>): string
  {
    match SecurityUtils.ValidateExtension(fileName, allowed)
    case Invalid(message) => message
    case Valid => ""
  }

  /** The ScanError rows logged for the names rejected by their extension,
      one per name, in the order the scan rejected them. */
  function ErrorRows(scanId: nat, names: seq<string>, allowed: seq<string>, now: int): (r: seq<ScanError>)
    ensures |r| == |names|
    ensures forall i :: 0 <= i < |r| ==> r[i].scanId == scanId && r[i].filePath == names[i]
    decreases |names|
  {
    if |names| == 0 then []
    else
      var rest := ErrorRows(scanId, names[..|names| - 1], allowed, now);
      var last := names[|names| - 1];
      var row := ScanError(scanId, last, "invalid_extension", ExtensionError(last, allowed), now);
      var prefix := names[..|names| - 1];
      assert forall i :: 0 <= i < |rest| + 1 ==> (rest + [row])[i].scanId == scanId && (rest + [row])[i].filePath == names[i] by {
        forall i | 0 <= i < |rest| + 1
          ensures (rest + [row])[i].scanId == scanId && (rest + [row])[i].filePath == names[i]
        {
          if i < |rest| {
            assert (rest + [row])[i] == rest[i] && prefix[i] == names[i];
          }
        }
      }
      rest + [row]
  }

  /** The result of a tracked scan: the plain scan result with the run's
      id, final status and error count (None where the source leaves the
      field unset). */
  datatype ReliableResult = ReliableResult(
    success: bool,
    message: string,
    totals: Totals,
    scanId: Option<nat>,
    status: Option<ScanStatus>,
    errorsCount: Option<nat>)

  /** What one run produces: its result, its scan record as last written,
      the catalog tables, the ScanError rows it keeps, the error counter,
      whether it took the lock, and the statuses its record went through. */
  datatype RunOutcome = RunOutcome(
    result: ReliableResult,
    record: ScanHistory,
    db: Db,
    logged: seq<ScanError>,
    errorCount: nat,
    acquired: bool,
    trail: seq<ScanStatus>)

  /** The validation failure raised as `ValueError` before the scan. */
  function InvalidRootMessage(report: Config.RootReport): string
  {
    "Invalid root path: " + (if report.error.Some? then report.error.value else "")
  }

  /** One run of `scan_root_folder_reliable` for record id `id`, from the
      catalog `db` and the lock row `lock`. The record starts PENDING; a
      held lock fails it at once; otherwise it goes RUNNING, an invalid root
      fails it, and a scan ends it COMPLETED, PARTIAL (rejections were
      logged) or FAILED (the scan failed and rolled back). */
  function TrackedRun(db: Db, id: nat, lock: Option<ScanLock>, userId: nat, now: int, root: Path,
                      probe: Config.RootProbe, listing: RootListing, policy: Policy,
                      allowed: seq<string>, timeText: Option<int> -> string): (o: RunOutcome)
    ensures |o.trail| >= 2 && o.trail[0] == Pending && o.trail[|o.trail| - 1] == o.record.status
    ensures forall i :: 0 <= i < |o.trail| - 1 ==> CanMove(o.trail[i], o.trail[i + 1])
    ensures IsFinal(o.record.status) && o.result.status == Some(o.record.status)
    ensures o.record.completedAt == Some(now) && o.record.id == id && o.record.startedById == userId
    ensures o.result.success <==> o.record.status != Failed
    ensures Held(lock) <==> !o.acquired
    ensures Held(lock) ==> o.db == db && o.logged == [] && o.record.status == Failed
                           && o.record.errorMessage == Some(LockBusyMessage(lock.value.lockedAt, timeText))
                           && o.result.message == o.record.errorMessage.value && !o.result.success
  {
    var pending := NewScanHistory(id, userId, now, Render(root));
    if Held(lock) then
      var busy := LockBusyMessage(lock.value.lockedAt, timeText);
      RunOutcome(ReliableResult(false, busy, NoTotals, Some(id), Some(Failed), None),
                 pending.(status := Failed, completedAt := Some(now), errorMessage := Some(busy)),
                 db, [], 0, false, [Pending, Failed])
    else AcquiredRun(db, pending, now, root, probe, listing, policy, allowed)
  }

  /** A run once the lock is taken: an invalid root fails it, otherwise the
      scan decides. */
  function AcquiredRun(db: Db, pending: ScanHistory, now: int, root: Path, probe: Config.RootProbe,
                       listing: RootListing, policy: Policy, allowed: seq<string>): (o: RunOutcome)
    ensures o.acquired && |o.trail| == 3 && o.trail[0] == Pending && o.trail[1] == Running && o.trail[2] == o.record.status
    ensures IsFinal(o.record.status) && o.result.status == Some(o.record.status)
    ensures o.record.completedAt == Some(now) && o.record.id == pending.id && o.record.startedById == pending.startedById
    ensures o.result.success <==> o.record.status != Failed
    ensures !Config.ValidateRootPath(Render(root), probe).valid ==>
              && o.db == db && o.logged == [] && o.record.status == Failed
              && o.record.errorMessage == Some(InvalidRootMessage(Config.ValidateRootPath(Render(root), probe)))
              && o.result.message == "Scan failed: " + o.record.errorMessage.value
  {
    var report := Config.ValidateRootPath(Render(root), probe);
    if !report.valid then
      var e := InvalidRootMessage(report);
      RunOutcome(ReliableResult(false, "Scan failed: " + e, NoTotals, Some(pending.id), Some(Failed), Some(0)),
                 pending.(status := Failed, completedAt := Some(now), errorMessage := Some(e)),
                 db, [], 0, true, [Pending, Running, Failed])
    else
      ScannedRun(pending, ScanRoot(db, root, listing, policy),
                 allowed, now)
  }

  /** The record at the end of a scan: its counters, COMPLETED, PARTIAL
      (rejections were logged) or FAILED (the scan failed and rolled back). */
  function ScannedRecord(pending: ScanHistory, result: ScanResult, rejected: seq<string>, now: int): ScanHistory
  {
    var n := |rejected|;
    var t := result.totals;
    var status := FinalStatus(result.success, n);
    pending.(
      categoriesFound := t.categoriesFound, coursesFound := t.coursesFound,
      filesAdded := t.filesAdded, filesUpdated := t.filesUpdated, filesRemoved := t.filesRemoved,
      errorsCount := n, completedAt := Some(now), status := status,
      message := Some(if status == Partial then "Scan completed with " + NatString(n) + " errors"
                      else result.message),
      errorMessage := if status == Failed then Some(result.message) else None)
  }

  /** What a run that reached the scan produces. */
  function ScannedRun(pending: ScanHistory, r: RootResult, allowed: seq<string>, now: int): (o: RunOutcome)
    ensures o.acquired && |o.trail| == 3 && o.trail[0] == Pending && o.trail[1] == Running && o.trail[2] == o.record.status
    ensures IsFinal(o.record.status) && o.result.status == Some(o.record.status)
    ensures o.record.completedAt == Some(now) && o.record.id == pending.id && o.record.startedById == pending.startedById
    ensures o.result.success <==> o.record.status != Failed
    ensures o.record.status == Partial <==> r.result.success && o.errorCount > 0
  {
    var n := |r.extRejected|;
    var status := FinalStatus(r.result.success, n);
    RunOutcome(ReliableResult(r.result.success, r.result.message, r.result.totals, Some(pending.id), Some(status), Some(n)),
               ScannedRecord(pending, r.result, r.extRejected, now), r.db,
               if r.result.success then ErrorRows(pending.id, r.extRejected, allowed, now) else [],
               n, true, [Pending, Running, status])
  }

  /** Error counting: the counter starts at zero each run and counts one
      error per name the scan rejected for its extension; the record and
      the result carry that count once the scanner has run; the rows are
      kept exactly when the scan succeeded (a failed scan rolls them back);
      and the record is PARTIAL exactly when a successful scan counted
      errors. */
  lemma TrackedRunErrors(db: Db, id: nat, lock: Option<ScanLock>, userId: nat, now: int, root: Path,
                         probe: Config.RootProbe, listing: RootListing, policy: Policy,
                         allowed: seq<string>, timeText: Option<int> -> string)
    ensures var o := TrackedRun(db, id, lock, userId, now, root, probe, listing, policy, allowed, timeText);
      var report := Config.ValidateRootPath(Render(root), probe);
      var r := ScanRoot(db, root, listing, policy);
      && o.record.errorsCount == o.errorCount
      && (o.acquired && report.valid ==>
            && o.errorCount == |r.extRejected| && o.result.errorsCount == Some(o.errorCount)
            && o.db == r.db
            && (r.result.success ==> |o.logged| == o.errorCount)
            && (!r.result.success ==> o.logged == [])
            && (o.record.status == Partial <==> r.result.success && o.errorCount > 0))
      && (forall e :: e in o.logged ==> e.scanId == id && e.errorType == "invalid_extension")
  {
    var o := TrackedRun(db, id, lock, userId, now, root, probe, listing, policy, allowed, timeText);
    var r := ScanRoot(db, root, listing, policy);
    forall e | e in o.logged
      ensures e.scanId == id && e.errorType == "invalid_extension"
    {
      ErrorRowsShape(id, r.extRejected, allowed, now, e);
    }
  }

  lemma UpdateLast<T>(s: seq<T>, x: T, y: T)
    ensures (s + [x])[|s| := y] == s + [y]
  {
  }

  lemma UpdateTwice<T>(s: seq<T>, i: nat, x: T, y: T)
    requires i < |s|
    ensures s[i := x][i := y] == s[i := y]
  {
  }

  lemma AppendAssoc<T>(a: seq<T>, b: seq<T>, c: seq<T>)
    ensures a + (b + c) == (a + b) + c
  {
  }

  /** One more name logs one more row, for that name. */
  lemma ErrorRowsSnoc(scanId: nat, names: seq<string>, i: nat, allowed: seq<string>, now: int)
    requires i < |names|
    ensures ErrorRows(scanId, names[..i + 1], allowed, now)
         == ErrorRows(scanId, names[..i], allowed, now)
            + [ScanError(scanId, names[i], "invalid_extension", ExtensionError(names[i], allowed), now)]
  {
    assert names[..i + 1][..i] == names[..i];
  }

  lemma {:induction false} ErrorRowsShape(scanId: nat, names: seq<string>, allowed: seq<string>, now: int, e: ScanError)
    requires e in ErrorRows(scanId, names, allowed, now)
    ensures e.scanId == scanId && e.errorType == "invalid_extension" && e.filePath in names
    decreases |names|
  {
    if e !in ErrorRows(scanId, names[..|names| - 1], allowed, now) {
      assert e.filePath == names[|names| - 1];
    } else {
      ErrorRowsShape(scanId, names[..|names| - 1], allowed, now, e);
    }
  }

  /** Which extension validator the scanner calls: the plain check, or the
      one installed for a run, which logs each rejection against it. */
  datatype ExtensionValidator = Original | Tracking(scanId: nat)

  /** What `get_scan_status` reports. */
  datatype StatusReport = StatusReport(
    isScanning: bool,
    currentScanId: Option<nat>,
    status: Option<ScanStatus>,
    startedAt: Option<int>,
    lockedById: Option<nat>,
    lastScan: Option<ScanHistory>)

  /** `a` comes no later than `b` when ordering by `completed_at`
      descending, where a missing time sorts first. */
  predicate CompletedNoEarlier(a: ScanHistory, b: ScanHistory)
  {
    a.completedAt.None? || (b.completedAt.Some? && a.completedAt.value >= b.completedAt.value)
  }

  /** The first finished record in order of `completed_at` descending. */
  function LastFinished(scans: seq<ScanHistory>): (r: Option<ScanHistory>)
    ensures r.Some? ==> r.value in scans && IsFinal(r.value.status)
                        && forall s :: s in scans && IsFinal(s.status) ==> CompletedNoEarlier(r.value, s)
    ensures r.None? <==> forall s :: s in scans ==> !IsFinal(s.status)
    decreases |scans|
  {
    if |scans| == 0 then None
    else
      var rest := LastFinished(scans[1..]);
      var s := scans[0];
      if !IsFinal(s.status) then rest
      else if rest.None? || CompletedNoEarlier(s, rest.value) then Some(s)
      else rest
  }

  /** The record with the given id, if any. */
  function FindScan(scans: seq<ScanHistory>, id: nat): (r: Option<ScanHistory>)
    ensures r.Some? ==> r.value in scans && r.value.id == id
    ensures r.None? ==> forall s :: s in scans ==> s.id != id
    decreases |scans|
  {
    if |scans| == 0 then None
    else if scans[0].id == id then Some(scans[0])
    else FindScan(scans[1..], id)
  }

  /** `get_scan_status`: a scan is in progress exactly when the lock is
      held; the current run (looked up only for a non-zero id) and the
      holder are reported only then. */
  function ScanStatusOf(lock: Option<ScanLock>, scans: seq<ScanHistory>): (r: StatusReport)
    ensures r.isScanning <==> Held(lock)
    ensures !Held(lock) ==> r.currentScanId == None && r.status == None && r.lockedById == None
    ensures Held(lock) ==> r.currentScanId == lock.value.scanId && r.lockedById == lock.value.lockedById
    ensures r.startedAt.Some? <==> r.status.Some?
    ensures r.status.Some? ==>
      && r.currentScanId.Some? && r.currentScanId.value != 0
      && exists s :: s in scans && s.id == r.currentScanId.value && s.status == r.status.value && s.startedAt == r.startedAt.value
    ensures (r.currentScanId.Some? && r.currentScanId.value != 0
             && exists s :: s in scans && s.id == r.currentScanId.value) ==> r.status.Some?
    ensures r.lastScan == LastFinished(scans)
  {
    var scanning := Held(lock);
    var current := if scanning then lock.value.scanId else None;
    var found := if current.Some? && current.value != 0 then FindScan(scans, current.value) else None;
    StatusReport(scanning, current,
                 if found.Some? then Some(found.value.status) else None,
                 if found.Some? then Some(found.value.startedAt) else None,
                 if scanning then lock.value.lockedById else None,
                 LastFinished(scans))
  }

  /** The service, over the scan tables it writes (the lock row, the scan
      records, the error rows) and the catalog the scanner changes. */
  class ReliableScannerService {
    var lock: Option<ScanLock>
    var scans: seq<ScanHistory>
    var errors: seq<ScanError>
    var currentScanId: Option<nat>
    var errorCount: nat
    var validator: ExtensionValidator
    const catalog: Catalog
    /** The validator's checks and the allowed extensions, from the
        settings the service runs under. */
    const policy: Policy
    const allowed: seq<string>
    /** How `str` renders the lock's `locked_at` in the refusal message. */
    const timeText: Option<int> -> string

    /** The lock row is row 1, records are numbered from 1 in order, and
        every error row belongs to a record. */
    ghost predicate Valid()
      reads this
    {
      && (lock.Some? ==> lock.value.id == 1)
      && (forall i :: 0 <= i < |scans| ==> scans[i].id == i + 1)
      && (forall e :: e in errors ==> 1 <= e.scanId <= |scans|)
    }

    constructor (catalog: Catalog, settings: Config.Settings, realpath: string -> Option<string>,
                 lock: Option<ScanLock>, scans: seq<ScanHistory>, errors: seq<ScanError>,
                 timeText: Option<int> -> string)
      requires lock.Some? ==> lock.value.id == 1
      requires forall i :: 0 <= i < |scans| ==> scans[i].id == i + 1
      requires forall e :: e in errors ==> 1 <= e.scanId <= |scans|
      ensures Valid()
      ensures this.catalog == catalog && this.lock == lock && this.scans == scans && this.errors == errors
      ensures policy == PolicyOf(settings, realpath) && allowed == Config.AllowedExtensionsList(settings.allowedExtensions)
      ensures currentScanId == None && errorCount == 0 && validator == Original && this.timeText == timeText
    {
      this.catalog := catalog;
      this.timeText := timeText;
      policy := PolicyOf(settings, realpath);
      allowed := Config.AllowedExtensionsList(settings.allowedExtensions);
      this.lock := lock;
      this.scans := scans;
      this.errors := errors;
      currentScanId := None;
      errorCount := 0;
      validator := Original;
    }

    /** `acquire_lock`: create the free row if there is none; refuse while
        it is held; otherwise take it for this user and run. */
    method AcquireLock(userId: nat, scanId: nat, now: int) returns (ok: bool, message: Option<string>)
      requires Valid()
      modifies this
      ensures Valid()
      ensures ok <==> !Held(old(lock))
      ensures ok ==> lock == Some(ScanLock(1, true, Some(userId), Some(now), Some(scanId))) && message == None
      ensures !ok ==> lock == old(lock) && message == Some(LockBusyMessage(lock.value.lockedAt, timeText))
      ensures scans == old(scans) && errors == old(errors) && currentScanId == old(currentScanId)
      ensures errorCount == old(errorCount) && validator == old(validator)
    {
      if lock.None? {
        lock := Some(FreeLock);
      }
      if lock.value.isLocked {
        return false, Some(LockBusyMessage(lock.value.lockedAt, timeText));
      }
      lock := Some(lock.value.(isLocked := true, lockedById := Some(userId), lockedAt := Some(now), scanId := Some(scanId)));
      return true, None;
    }

    /** `release_lock`: clear the row, whoever holds it. */
    method ReleaseLock()
      requires Valid()
      modifies this
      ensures Valid()
      ensures lock == if old(lock).Some? then Some(FreeLock) else None
      ensures scans == old(scans) && errors == old(errors) && currentScanId == old(currentScanId)
      ensures errorCount == old(errorCount) && validator == old(validator)
    {
      if lock.Some? {
        lock := Some(lock.value.(isLocked := false, lockedById := None, lockedAt := None, scanId := None));
      }
    }

    /** `create_scan_record`: a new PENDING record under the next id. */
    method CreateScanRecord(userId: nat, rootPath: string, now: int) returns (scan: ScanHistory)
      requires Valid()
      modifies this
      ensures Valid()
      ensures scan == NewScanHistory(|old(scans)| + 1, userId, now, rootPath)
      ensures scans == old(scans) + [scan]
      ensures lock == old(lock) && errors == old(errors) && currentScanId == old(currentScanId)
      ensures errorCount == old(errorCount) && validator == old(validator)
    {
      scan := NewScanHistory(|scans| + 1, userId, now, rootPath);
      scans := scans + [scan];
    }

    /** `log_error`: one error row for the run, and one more error counted. */
    method LogError(scanId: nat, filePath: string, errorType: string, message: string, now: int)
      requires Valid() && 1 <= scanId <= |scans|
      modifies this
      ensures Valid()
      ensures errors == old(errors) + [ScanError(scanId, filePath, errorType, message, now)]
      ensures errorCount == old(errorCount) + 1
      ensures lock == old(lock) && scans == old(scans) && currentScanId == old(currentScanId)
      ensures validator == old(validator)
    {
      errors := errors + [ScanError(scanId, filePath, errorType, message, now)];
      errorCount := errorCount + 1;
    }

    /** `_execute_scan_with_tracking`: install the logging validator, run
        the plain scan, and put the original validator back. Each name the
        scan rejects for its extension is logged; the scan's rollback on
        failure discards those rows, but not the count. */
    method ExecuteScanWithTracking(scanId: nat, root: Path, listing: RootListing, now: int)
      returns (result: ScanResult, rejected: seq<string>)
      requires Valid() && 1 <= scanId <= |scans|
      modifies this, catalog
      ensures Valid()
      ensures var r := ScanRoot(old(catalog.State()), root, listing, policy);
        && result == r.result && rejected == r.extRejected && catalog.State() == r.db
      ensures errorCount == old(errorCount) + |rejected|
      ensures errors == old(errors) + (if result.success then ErrorRows(scanId, rejected, allowed, now) else [])
      ensures lock == old(lock) && scans == old(scans) && currentScanId == old(currentScanId)
      ensures validator == old(validator)
    {
      var original := validator;
      validator := Tracking(scanId);
      result, rejected := catalog.ScanRootFolder(root, listing, policy);
      var before := errors;
      LogRejections(scanId, rejected, now);
      if !result.success {
        errors := before;
      }
      validator := original;
    }

    /** The tracking validator's side effect over a whole scan: one error
        row and one count per rejected name, in order. */
    method LogRejections(scanId: nat, names: seq<string>, now: int)
      requires Valid() && 1 <= scanId <= |scans|
      modifies this
      ensures Valid()
      ensures errors == old(errors) + ErrorRows(scanId, names, allowed, now)
      ensures errorCount == old(errorCount) + |names|
      ensures lock == old(lock) && scans == old(scans) && currentScanId == old(currentScanId)
      ensures validator == old(validator)
    {
      var i := 0;
      while i < |names|
        invariant 0 <= i <= |names| && Valid()
        invariant errors == old(errors) + ErrorRows(scanId, names[..i], allowed, now)
        invariant errorCount == old(errorCount) + i
        invariant lock == old(lock) && scans == old(scans) && currentScanId == old(currentScanId)
        invariant validator == old(validator)
      {
        ErrorRowsSnoc(scanId, names, i, allowed, now);
        var row := ScanError(scanId, names[i], "invalid_extension", ExtensionError(names[i], allowed), now);
        AppendAssoc(old(errors), ErrorRows(scanId, names[..i], allowed, now), [row]);
        LogError(scanId, names[i], "invalid_extension", ExtensionError(names[i], allowed), now);
        i := i + 1;
      }
      assert names[..i] == names;
    }

    /** The run after the lock was taken: RUNNING, root validation, the
        tracked scan, and the final record. */
    method RunAcquired(scan: ScanHistory, root: Path, probe: Config.RootProbe, listing: RootListing, now: int)
      returns (result: ReliableResult)
      requires Valid() && |scans| >= 1 && scan == scans[|scans| - 1] && errorCount == 0
      requires scan == NewScanHistory(|scans|, scan.startedById, now, Render(root))
      modifies this, catalog
      ensures Valid()
      ensures var o := AcquiredRun(old(catalog.State()), scan, now, root, probe, listing, policy, allowed);
        && result == o.result && catalog.State() == o.db
        && scans == old(scans)[|old(scans)| - 1 := o.record]
        && errors == old(errors) + o.logged && errorCount == o.errorCount
      ensures |scans| == |old(scans)| && lock == old(lock) && currentScanId == old(currentScanId)
      ensures validator == old(validator)
    {
      var id := scan.id;
      var record := scan.(status := Running);
      scans := scans[id - 1 := record];
      var report := Config.ValidateRootPath(Render(root), probe);
      if !report.valid {
        var e := InvalidRootMessage(report);
        record := record.(status := Failed, completedAt := Some(now), errorMessage := Some(e), errorsCount := errorCount);
        scans := scans[id - 1 := record];
        result := ReliableResult(false, "Scan failed: " + e, NoTotals, Some(id), Some(Failed), Some(errorCount));
        UpdateTwice(old(scans), id - 1, scan.(status := Running), record);
        return;
      }
      result := RunScan(scan, root, listing, now);
      UpdateTwice(old(scans), id - 1, scan.(status := Running), scans[id - 1]);
    }

    /** The tracked scan and the final record, for a run whose root is
        valid. */
    method RunScan(scan: ScanHistory, root: Path, listing: RootListing, now: int)
      returns (result: ReliableResult)
      requires Valid() && 1 <= scan.id <= |scans| && errorCount == 0 && scan.errorMessage.None?
      modifies this, catalog
      ensures Valid()
      ensures var o := ScannedRun(scan, ScanRoot(old(catalog.State()), root, listing, policy),
                                  allowed, now);
        && result == o.result && catalog.State() == o.db
        && scans == old(scans)[scan.id - 1 := o.record]
        && errors == old(errors) + o.logged && errorCount == o.errorCount
      ensures lock == old(lock) && currentScanId == old(currentScanId) && validator == old(validator)
    {
      var scanResult, rejected := ExecuteScanWithTracking(scan.id, root, listing, now);
      result := RecordScan(scan, scanResult, rejected, now);
    }

    /** The end of a run that reached the scan: the record takes the scan's
        counters and its final status, and the result reports them. */
    method RecordScan(scan: ScanHistory, scanResult: ScanResult, rejected: seq<string>, now: int)
      returns (result: ReliableResult)
      requires Valid() && 1 <= scan.id <= |scans| && errorCount == |rejected| && scan.errorMessage.None?
      modifies this
      ensures Valid()
      ensures var record := ScannedRecord(scan, scanResult, rejected, now);
        && scans == old(scans)[scan.id - 1 := record]
        && result == ReliableResult(scanResult.success, scanResult.message, scanResult.totals, Some(scan.id),
                                    Some(record.status), Some(|rejected|))
      ensures errors == old(errors) && errorCount == old(errorCount) && lock == old(lock)
      ensures currentScanId == old(currentScanId) && validator == old(validator)
    {
      var t := scanResult.totals;
      var record := scan.(categoriesFound := t.categoriesFound, coursesFound := t.coursesFound,
                          filesAdded := t.filesAdded, filesUpdated := t.filesUpdated, filesRemoved := t.filesRemoved,
                          errorsCount := errorCount, completedAt := Some(now), message := Some(scanResult.message));
      if scanResult.success {
        if errorCount > 0 {
          record := record.(status := Partial,
                            message := Some("Scan completed with " + NatString(errorCount) + " errors"));
        } else {
          record := record.(status := Completed);
        }
      } else {
        record := record.(status := Failed, errorMessage := Some(scanResult.message));
      }
      scans := scans[scan.id - 1 := record];
      result := ReliableResult(scanResult.success, scanResult.message, t, Some(scan.id), Some(record.status), Some(errorCount));
    }

    /** `scan_root_folder_reliable` as written: the `finally` clause
        releases the lock on every path, so a run refused because another
        run holds the lock clears that run's lock. */
    method ScanRootFolderReliable(root: Path, userId: nat, now: int, probe: Config.RootProbe, listing: RootListing)
      returns (result: ReliableResult)
      requires Valid()
      modifies this, catalog
      ensures Valid()
      ensures var o := TrackedRun(old(catalog.State()), |old(scans)| + 1, old(lock), userId, now, root,
                                  probe, listing, policy, allowed, timeText);
        && result == o.result && catalog.State() == o.db
        && scans == old(scans) + [o.record] && errors == old(errors) + o.logged
        && errorCount == o.errorCount && currentScanId == Some(o.record.id)
      ensures lock == Some(FreeLock)
      ensures validator == old(validator)
    {
      var acquired;
      result, acquired := RunBeforeRelease(root, userId, now, probe, listing);
      ReleaseLock();
    }

    /** The same run with the release guarded by the acquisition: a refused
        run leaves the lock of the run that holds it in place. */
    method ScanRootFolderReliableGuarded(root: Path, userId: nat, now: int, probe: Config.RootProbe, listing: RootListing)
      returns (result: ReliableResult)
      requires Valid()
      modifies this, catalog
      ensures Valid()
      ensures var o := TrackedRun(old(catalog.State()), |old(scans)| + 1, old(lock), userId, now, root,
                                  probe, listing, policy, allowed, timeText);
        && result == o.result && catalog.State() == o.db
        && scans == old(scans) + [o.record] && errors == old(errors) + o.logged
        && errorCount == o.errorCount && currentScanId == Some(o.record.id)
      ensures Held(old(lock)) ==> lock == old(lock)
      ensures !Held(old(lock)) ==> lock == Some(FreeLock)
      ensures validator == old(validator)
    {
      var acquired;
      result, acquired := RunBeforeRelease(root, userId, now, probe, listing);
      if acquired {
        ReleaseLock();
      }
    }

    /** Everything of a run but the release of the lock: the new record
        becomes the current one, the error counter starts at zero, and the
        run takes the lock and scans, or fails with the refusal. */
    method RunBeforeRelease(root: Path, userId: nat, now: int, probe: Config.RootProbe, listing: RootListing)
      returns (result: ReliableResult, acquired: bool)
      requires Valid()
      modifies this, catalog
      ensures Valid()
      ensures var o := TrackedRun(old(catalog.State()), |old(scans)| + 1, old(lock), userId, now, root,
                                  probe, listing, policy, allowed, timeText);
        && result == o.result && catalog.State() == o.db && acquired == o.acquired
        && scans == old(scans) + [o.record] && errors == old(errors) + o.logged
        && errorCount == o.errorCount && currentScanId == Some(o.record.id)
      ensures !acquired ==> lock == old(lock)
      ensures acquired ==> lock.Some?
      ensures validator == old(validator)
    {
      var scan := CreateScanRecord(userId, Render(root), now);
      currentScanId := Some(scan.id);
      errorCount := 0;
      result, acquired := Track(scan, root, probe, listing, now);
      UpdateLast(old(scans), scan, scans[|scans| - 1]);
    }

    /** The run of the record just created, up to the release of the lock:
        take the lock, then run, or fail the record with the refusal. */
    method Track(scan: ScanHistory, root: Path, probe: Config.RootProbe, listing: RootListing, now: int)
      returns (result: ReliableResult, acquired: bool)
      requires Valid() && |scans| >= 1 && scan == scans[|scans| - 1] && errorCount == 0
      requires scan == NewScanHistory(|scans|, scan.startedById, now, Render(root))
      modifies this, catalog
      ensures Valid()
      ensures var o := TrackedRun(old(catalog.State()), scan.id, old(lock), scan.startedById, now, root,
                                  probe, listing, policy, allowed, timeText);
        && result == o.result && catalog.State() == o.db && acquired == o.acquired
        && scans == old(scans)[|old(scans)| - 1 := o.record] && errors == old(errors) + o.logged
        && errorCount == o.errorCount
      ensures !acquired ==> lock == old(lock)
      ensures acquired ==> lock.Some?
      ensures currentScanId == old(currentScanId) && validator == old(validator)
    {
      var message;
      acquired, message := AcquireLock(scan.startedById, scan.id, now);
      if !acquired {
        result := RecordRefused(scan, now, message.value);
      } else {
        result := RunAcquired(scan, root, probe, listing, now);
      }
    }

    /** The refused path: the record fails at once with the refusal
        `acquire_lock` gave. */
    method RecordRefused(scan: ScanHistory, now: int, refusal: string) returns (result: ReliableResult)
      requires Valid() && |scans| >= 1 && scan == scans[|scans| - 1]
      modifies this
      ensures Valid()
      ensures scans == old(scans)[|old(scans)| - 1 := scan.(status := Failed, completedAt := Some(now),
                                                       errorMessage := Some(refusal))]
      ensures result == ReliableResult(false, refusal, NoTotals, Some(scan.id), Some(Failed), None)
      ensures |scans| == |old(scans)| && lock == old(lock) && errors == old(errors)
      ensures currentScanId == old(currentScanId) && errorCount == old(errorCount) && validator == old(validator)
    {
      var record := scan.(status := Failed, completedAt := Some(now), errorMessage := Some(refusal));
      scans := scans[scan.id - 1 := record];
      result := ReliableResult(false, refusal, NoTotals, Some(scan.id), Some(Failed), None);
    }
  }
  /** As written, a run refused because another run holds the lock leaves
      the lock free behind it, while that other run is still scanning. */
  method RefusedRunFreesHeldLock(s: ReliableScannerService, root: Path, userId: nat, now: int,
                                 probe: Config.RootProbe, listing: RootListing)
    requires s.Valid() && Held(s.lock)
    modifies s, s.catalog
    ensures !Held(s.lock)
    ensures |s.scans| > 0 && s.scans[|s.scans| - 1].status == Failed && s.catalog.State() == old(s.catalog.State())
  {
    var result := s.ScanRootFolderReliable(root, userId, now, probe, listing);
  }

  /** With the release guarded, the refused run leaves the other run's lock
      held, exactly as it found it. */
  method RefusedRunKeepsHeldLock(s: ReliableScannerService, root: Path, userId: nat, now: int,
                                 probe: Config.RootProbe, listing: RootListing)
    requires s.Valid() && Held(s.lock)
    modifies s, s.catalog
    ensures Held(s.lock) && s.lock == old(s.lock)
    ensures |s.scans| > 0 && s.scans[|s.scans| - 1].status == Failed && s.catalog.State() == old(s.catalog.State())
  {
    var result := s.ScanRootFolderReliableGuarded(root, userId, now, probe, listing);
  }
}
