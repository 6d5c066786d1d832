/** Database restore: `restore_backup` between acquiring and releasing the
    shared operation lock, and the rule by which a pg_restore run counts as
    a failure. The pg_restore process is reduced to its exit code and
    standard error, and the integrity query to whether it raised. */
module RestoreServiceModel {
  import opened Common
  import opened LockServiceModel
  import opened BackupServiceModel

  /** What `subprocess.run` hands back. */
  datatype ProcessResult = ProcessResult(returnCode: int, stderr: string)

  const BackupNotFoundMessage: string := "Backup not found"
  const FileMissingMessage: string := "Backup file not found on disk"
  const RestoreFailedMessage: string := "Restore failed"
  const IntegrityFailedMessage: string := "Database integrity check failed after restore"

  /** `_execute_pg_restore`: `None` is a run that raised before finishing
      (the except branch); otherwise only the words FATAL and ERROR in
      standard error make the run a failure. */
  function PgRestoreSucceeded(run: Option<ProcessResult>): (ok: bool)
    ensures ok ==> run.Some?
    ensures run.Some? && |run.value.stderr| < 5 ==> ok
  {
    match run
    case None => false
    case Some(result) =>
      ContainsFits(result.stderr, "FATAL");
      ContainsFits(result.stderr, "ERROR");
      !(Contains(result.stderr, "FATAL") || Contains(result.stderr, "ERROR"))
  }

  /** The exit code never decides: runs with the same standard error have
      the same outcome, and FATAL or ERROR written anywhere in it fails the run. */
  lemma ExitCodeIgnored(code: int, otherCode: int, stderr: string, before: string, after: string)
    ensures PgRestoreSucceeded(Some(ProcessResult(code, stderr)))
            == PgRestoreSucceeded(Some(ProcessResult(otherCode, stderr)))
    ensures !PgRestoreSucceeded(Some(ProcessResult(code, before + "FATAL" + after)))
    ensures !PgRestoreSucceeded(Some(ProcessResult(code, before + "ERROR" + after)))
  {
    ContainsInfix(before, "FATAL", after);
    ContainsInfix(before, "ERROR", after);
  }

  /** The `try` block of `restore_backup`, as a value: the checks in the
      order the source makes them. `run` is what pg_restore would report
      for the backup's file and `integrityOk` whether the count query
      afterwards answers. */
  function Restored(backups: seq<BackupHistory>, files: set<string>, backupId: nat,
                    run: Option<ProcessResult>, integrityOk: bool): (r: Result<bool>)
    ensures r.Ok? ==> r.value && PgRestoreSucceeded(run) && integrityOk
    ensures backupId !in IdsOf(backups) ==> r == Err(BackupNotFoundMessage)
  {
    match FindBackup(backups, backupId)
    case None => Err(BackupNotFoundMessage)
    case Some(backup) =>
      if backup.filePath !in files then Err(FileMissingMessage)
      else if !PgRestoreSucceeded(run) then Err(RestoreFailedMessage)
      else if !integrityOk then Err(IntegrityFailedMessage)
      else Ok(true)
  }

  /** A restore returns True exactly when the backup exists, its file is on
      disk, pg_restore succeeded and the integrity check passed. An unknown id or a missing file is reported whatever
      pg_restore would have done, since it is never started. */
  lemma RestoreSucceedsExactly(backups: seq<BackupHistory>, files: set<string>, backupId: nat,
                               run: Option<ProcessResult>, integrityOk: bool)
    ensures var r := Restored(backups, files, backupId, run, integrityOk);
      && (r == Ok(true) <==>
            exists b :: b in backups && b.id == backupId && b.filePath in files
                        && FindBackup(backups, backupId) == Some(b)
                        && PgRestoreSucceeded(run) && integrityOk)
    ensures forall otherRun: Option<ProcessResult>, otherIntegrity: bool ::
              (FindBackup(backups, backupId).None? || FindBackup(backups, backupId).value.filePath !in files)
              ==> Restored(backups, files, backupId, otherRun, otherIntegrity)
                  == Restored(backups, files, backupId, run, integrityOk)
  {
    var found := FindBackup(backups, backupId);
    if found.Some? {
      var b := found.value;
      assert b in backups && b.id == backupId;
    }
  }

  /** The restore side of the service: the backup table and the files on
      disk it reads, and the shared lock. */
  class RestoreService {
    const lockService: LockService
    var backups: seq<BackupHistory>
    var files: set<string>

    constructor (lockService: LockService, backups: seq<BackupHistory>, files: set<string>)
      ensures this.lockService == lockService && this.backups == backups && this.files == files
    {
      this.lockService := lockService;
      this.backups := backups;
      this.files := files;
    }

    /** `restore_backup`: refused, with nothing released, while any backup
        or restore holds the lock; otherwise the 'restore' lock is taken and
        released again on every path out of the checks. */
    method RestoreBackup(backupId: nat, userId: nat, now: int, run: Option<ProcessResult>, integrityOk: bool)
      returns (r: Result<bool>)
      modifies lockService
      ensures AnyInProgress(old(lockService.locks)) ==>
                r == Err(BusyMessage) && lockService.locks == old(lockService.locks)
      ensures !AnyInProgress(old(lockService.locks)) ==>
                r == Restored(backups, files, backupId, run, integrityOk)
                && lockService.locks == old(lockService.locks) + [OperationLock(|old(lockService.locks)| + 1, "restore", userId, now, Completed)]
                && !AnyInProgress(lockService.locks)
    {
      var acquired := lockService.AcquireLock("restore", userId, now);
      if !acquired {
        return Err(BusyMessage);
      }
      AcquireThenRelease(old(lockService.locks), "restore", userId, now);
      r := RestoreUnderLock(backupId, run, integrityOk);
      var released := lockService.ReleaseLock("restore");
    }

    /** The `try` block of `restore_backup`. */
    method RestoreUnderLock(backupId: nat, run: Option<ProcessResult>, integrityOk: bool) returns (r: Result<bool>)
      ensures r == Restored(backups, files, backupId, run, integrityOk)
    {
      var backup := FindBackup(backups, backupId);
      if backup.None? {
        return Err(BackupNotFoundMessage);
      }
      if backup.value.filePath !in files {
        return Err(FileMissingMessage);
      }
      var success := PgRestoreSucceeded(run);
      if !success {
        return Err(RestoreFailedMessage);
      }
      if !integrityOk {
        return Err(IntegrityFailedMessage);
      }
      return Ok(true);
    }
  }
}
