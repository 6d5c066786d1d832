/** Database backups: `create_backup` under the operation lock, the
    retention rule that keeps the newest `MAX_BACKUPS_TO_KEEP` backups, and
    `delete_backup`. pg_dump is reduced to whether it succeeded; the disk
    is the set of file paths present. */
module BackupServiceModel {
  import opened Common
  import opened LockServiceModel

  /** One row of `backup_history`. */
  datatype BackupHistory = BackupHistory(
    id: nat,
    filename: string,
    filePath: string,
    fileSize: Option<nat>,
    backupType: string,
    createdById: nat,
    createdAt: int,
    status: string,
    notes: Option<string>)

  const BusyMessage: string := "A backup or restore operation is already in progress"
  const BackupFailedMessage: string := "Backup creation failed"
  const DuplicateFilenameMessage: string := "duplicate key value violates unique constraint on filename"

  /** Newest first: `created_at` never increases along the sequence. */
  predicate NewestFirstOrder(s: seq<BackupHistory>)
  {
    forall i, j :: 0 <= i < j < |s| ==> s[i].createdAt >= s[j].createdAt
  }

  function InsertNewest(b: BackupHistory, s: seq<BackupHistory>): seq<BackupHistory>
    decreases |s|
  {
    if |s| == 0 || b.createdAt >= s[0].createdAt then [b] + s
    else [s[0]] + InsertNewest(b, s[1..])
  }

  /** Inserting into a newest-first list keeps it newest first and adds
      exactly the one row. */
  lemma {:induction false} InsertNewestSorts(b: BackupHistory, s: seq<BackupHistory>)
    requires NewestFirstOrder(s)
    ensures var r := InsertNewest(b, s);
      NewestFirstOrder(r) && multiset(r) == multiset(s) + multiset{b} && |r| == |s| + 1
    decreases |s|
  {
    if |s| == 0 || b.createdAt >= s[0].createdAt {
      ConsNewestFirst(b, s);
    } else {
      var rest := InsertNewest(b, s[1..]);
      InsertNewestSorts(b, s[1..]);
      assert s == [s[0]] + s[1..];
      HeadIsNewest(b, s, rest);
      ConsNewestFirst(s[0], rest);
    }
  }

  /** The head of a newest-first list is at least as new as the rest of
      it and as a row older than itself. */
  lemma HeadIsNewest(b: BackupHistory, s: seq<BackupHistory>, rest: seq<BackupHistory>)
    requires NewestFirstOrder(s) && |s| > 0 && b.createdAt < s[0].createdAt
    requires multiset(rest) == multiset(s[1..]) + multiset{b}
    ensures forall x :: x in rest ==> s[0].createdAt >= x.createdAt
  {
    forall x | x in rest
      ensures s[0].createdAt >= x.createdAt
    {
      assert x in multiset(s[1..]) + multiset{b};
      if x != b {
        assert x in multiset(s[1..]);
        var k :| 0 <= k < |s[1..]| && s[1..][k] == x;
        assert s[k + 1] == x;
      }
    }
  }

  lemma ConsNewestFirst(x: BackupHistory, rest: seq<BackupHistory>)
    requires NewestFirstOrder(rest) && forall y :: y in rest ==> x.createdAt >= y.createdAt
    ensures NewestFirstOrder([x] + rest)
  {
    var r := [x] + rest;
    forall i, j | 0 <= i < j < |r|
      ensures r[i].createdAt >= r[j].createdAt
    {
      if i > 0 {
        assert r[i] == rest[i - 1] && r[j] == rest[j - 1];
      } else {
        assert r[j] in rest;
      }
    }
  }

  /** A slice of an arrangement of `bs` holds rows of `bs`, and the whole
      arrangement holds all of them. */
  lemma PageOfAll(all: seq<BackupHistory>, bs: seq<BackupHistory>, lo: nat, hi: nat)
    requires multiset(all) == multiset(bs) && lo <= hi <= |all|
    ensures forall b :: b in all[lo..hi] ==> b in bs
    ensures lo == 0 && hi == |all| ==> multiset(all[lo..hi]) == multiset(bs)
  {
    forall b | b in all[lo..hi]
      ensures b in bs
    {
      assert b in multiset(all);
    }
    assert lo == 0 && hi == |all| ==> all[lo..hi] == all;
  }

  /** The backups as `order_by(created_at.desc())` lists them. */
  function NewestFirst(bs: seq<BackupHistory>): (r: seq<BackupHistory>)
    ensures NewestFirstOrder(r) && multiset(r) == multiset(bs) && |r| == |bs|
    decreases |bs|
  {
    if |bs| == 0 then []
    else
      assert bs == [bs[0]] + bs[1..];
      InsertNewestSorts(bs[0], NewestFirst(bs[1..]));
      InsertNewest(bs[0], NewestFirst(bs[1..]))
  }

  /** Where Python's slice `xs[k:]` starts in a list of length `n`: a
      negative `k` counts from the end. */
  function SliceStart(n: nat, k: int): (s: nat)
    ensures s <= n
    ensures k >= 0 ==> s == (if k < n then k else n)
    ensures k < 0 ==> s == (if n + k > 0 then n + k else 0)
  {
    if k >= 0 then (if k < n then k else n) else (if n + k > 0 then n + k else 0)
  }

  /** The backups `cleanup_old_backups` deletes: none while there are at
      most `keep`; otherwise those past the first `keep` newest. */
  function Retired(bs: seq<BackupHistory>, keep: int): (r: seq<BackupHistory>)
    ensures |bs| <= keep ==> r == []
    ensures keep >= 0 && |bs| > keep ==> |r| == |bs| - keep
    ensures forall b :: b in r ==> b in bs
  {
    if |bs| <= keep then []
    else
      var sorted := NewestFirst(bs);
      var tail := sorted[SliceStart(|bs|, keep)..];
      assert forall b :: b in tail ==> b in multiset(sorted);
      tail
  }

  function IdsOf(bs: seq<BackupHistory>): set<nat>
  {
    set b | b in bs :: b.id
  }

  function PathsOf(bs: seq<BackupHistory>): set<string>
  {
    set b | b in bs :: b.filePath
  }

  /** The rows whose id is not in `ids`, in order. */
  function Without(bs: seq<BackupHistory>, ids: set<nat>): (r: seq<BackupHistory>)
    decreases |bs|
  {
    if |bs| == 0 then []
    else
      var rest := Without(bs[..|bs| - 1], ids);
      var last := bs[|bs| - 1];
      if last.id in ids then rest else rest + [last]
  }

  /** The rows kept are exactly those whose id is not listed. */
  lemma {:induction false} WithoutMembers(bs: seq<BackupHistory>, ids: set<nat>)
    ensures forall b :: b in Without(bs, ids) <==> b in bs && b.id !in ids
    decreases |bs|
  {
    if |bs| > 0 {
      WithoutMembers(bs[..|bs| - 1], ids);
      assert bs == bs[..|bs| - 1] + [bs[|bs| - 1]];
    }
  }

  /** One pass of the deletion loop: dropping the next listed row's id and
      path extends what the listed prefix already dropped. */
  lemma DeleteStep(bs: seq<BackupHistory>, files: set<string>, toDelete: seq<BackupHistory>, i: nat)
    requires i < |toDelete|
    ensures Without(Without(bs, IdsOf(toDelete[..i])), {toDelete[i].id}) == Without(bs, IdsOf(toDelete[..i + 1]))
    ensures files - PathsOf(toDelete[..i]) - {toDelete[i].filePath} == files - PathsOf(toDelete[..i + 1])
  {
    assert toDelete[..i + 1] == toDelete[..i] + [toDelete[i]];
    SnocIdsPaths(toDelete[..i], toDelete[i]);
    WithoutTwice(bs, IdsOf(toDelete[..i]), {toDelete[i].id});
  }

  lemma SnocIdsPaths(bs: seq<BackupHistory>, b: BackupHistory)
    ensures IdsOf(bs + [b]) == IdsOf(bs) + {b.id}
    ensures PathsOf(bs + [b]) == PathsOf(bs) + {b.filePath}
  {
    assert forall x :: x in bs + [b] <==> x in bs || x == b;
  }

  lemma {:induction false} WithoutNothing(bs: seq<BackupHistory>)
    ensures Without(bs, {}) == bs
    decreases |bs|
  {
    if |bs| > 0 {
      WithoutNothing(bs[..|bs| - 1]);
      assert bs == bs[..|bs| - 1] + [bs[|bs| - 1]];
    }
  }

  lemma {:induction false} WithoutTwice(bs: seq<BackupHistory>, ids: set<nat>, more: set<nat>)
    ensures Without(Without(bs, ids), more) == Without(bs, ids + more)
    decreases |bs|
  {
    if |bs| > 0 {
      var init, last := bs[..|bs| - 1], bs[|bs| - 1];
      WithoutTwice(init, ids, more);
      var inner := Without(init, ids);
      if last.id !in ids {
        assert (inner + [last])[..|inner|] == inner;
      }
    }
  }

  /** Retention keeps the newest: every backup left is at least as new as
      every backup deleted. */
  lemma RetentionKeepsNewest(bs: seq<BackupHistory>, keep: int)
    ensures forall b, r :: b in Without(bs, IdsOf(Retired(bs, keep))) && r in Retired(bs, keep) ==>
              b.createdAt >= r.createdAt
  {
    if |bs| > keep {
      var sorted := NewestFirst(bs);
      var start := SliceStart(|bs|, keep);
      WithoutMembers(bs, IdsOf(Retired(bs, keep)));
      forall b, r | b in Without(bs, IdsOf(Retired(bs, keep))) && r in Retired(bs, keep)
        ensures b.createdAt >= r.createdAt
      {
        assert b in multiset(sorted);
        var i :| 0 <= i < |sorted| && sorted[i] == b;
        var j :| start <= j < |sorted| && sorted[j] == r;
        assert forall k :: start <= k < |sorted| ==> sorted[k] in Retired(bs, keep);
        assert i < start;
      }
    }
  }

  /** `os.path.join` of a directory and a relative file name. */
  function PathJoin(dir: string, name: string): string
  {
    if dir == "" || EndsWith(dir, "/") then dir + name else dir + "/" + name
  }

  /** The file name of a backup taken at `timestamp` (`%Y%m%d_%H%M%S`). */
  function BackupFilename(timestamp: string): (f: string)
    ensures StartsWith(f, "backup_") && EndsWith(f, ".sql")
  {
    var f := "backup_" + timestamp + ".sql";
    assert f[..7] == "backup_";
    assert f[|f| - 4..] == ".sql";
    f
  }

  /** Acquiring on a free table and then releasing the same type leaves
      exactly one more row, completed, and nothing in progress. */
  lemma AcquireThenRelease(locks: seq<OperationLock>, operationType: string, userId: nat, now: int)
    requires !AnyInProgress(locks)
    ensures Acquired(locks, operationType, userId, now).0
    ensures Released(Acquired(locks, operationType, userId, now).1, operationType)
            == (true, locks + [OperationLock(|locks| + 1, operationType, userId, now, Completed)])
    ensures !AnyInProgress(locks + [OperationLock(|locks| + 1, operationType, userId, now, Completed)])
  {
    AcquireExcludes(locks, operationType, userId, now);
    var after := Acquired(locks, operationType, userId, now).1;
    assert forall j :: 0 <= j < |locks| ==> after[j] == locks[j] && locks[j].status != InProgress;
    assert after[|locks|].status == InProgress && after[|locks|].operationType == operationType;
    assert FirstInProgress(after, Some(operationType)) == |locks|;
    assert after[|locks| := after[|locks|].(status := Completed)]
        == locks + [OperationLock(|locks| + 1, operationType, userId, now, Completed)];
  }

  /** The backup table, the backup files on disk and the shared lock. */
  class BackupService {
    const lockService: LockService
    var backups: seq<BackupHistory>
    var files: set<string>
    var nextId: nat

    constructor (lockService: LockService, backups: seq<BackupHistory>, files: set<string>, nextId: nat)
      ensures this.lockService == lockService && this.backups == backups && this.files == files
      ensures this.nextId == nextId
    {
      this.lockService := lockService;
      this.backups := backups;
      this.files := files;
      this.nextId := nextId;
    }

    /** `create_backup`: refused without the lock (and then nothing is
        released); otherwise dump, record, clean up, and release the lock
        on every path. `dumpOk` is pg_dump's outcome, `timestamp` the
        formatted local time, `fileSize` the dump's size. */
    method CreateBackup(userId: nat, notes: Option<string>, timestamp: string, dumpOk: bool, fileSize: nat,
                        now: int, backupDir: string, maxBackupsToKeep: int)
      returns (r: Result<BackupHistory>)
      modifies this, lockService
      ensures AnyInProgress(old(lockService.locks)) ==>
                r == Err(BusyMessage) && lockService.locks == old(lockService.locks)
                && backups == old(backups) && files == old(files)
      ensures !AnyInProgress(old(lockService.locks)) ==>
                lockService.locks == old(lockService.locks) + [OperationLock(|old(lockService.locks)| + 1, "backup", userId, now, Completed)]
                && !AnyInProgress(lockService.locks)
                && (backups, files, r) == Backup(old(backups), old(files), old(nextId), userId, notes, timestamp,
                                                 dumpOk, fileSize, now, backupDir, maxBackupsToKeep)
    {
      var acquired := lockService.AcquireLock("backup", userId, now);
      if !acquired {
        return Err(BusyMessage);
      }
      AcquireThenRelease(old(lockService.locks), "backup", userId, now);
      r := BackupUnderLock(userId, notes, timestamp, dumpOk, fileSize, now, backupDir, maxBackupsToKeep);
      var released := lockService.ReleaseLock("backup");
    }

    /** The `try` block of `create_backup`. */
    method BackupUnderLock(userId: nat, notes: Option<string>, timestamp: string, dumpOk: bool, fileSize: nat,
                           now: int, backupDir: string, maxBackupsToKeep: int)
      returns (r: Result<BackupHistory>)
      modifies this
      ensures (backups, files, r) == Backup(old(backups), old(files), old(nextId), userId, notes, timestamp,
                                            dumpOk, fileSize, now, backupDir, maxBackupsToKeep)
    {
      var filename := BackupFilename(timestamp);
      var outputFile := PathJoin(backupDir, filename);
      if !dumpOk {
        return Err(BackupFailedMessage);
      }
      files := files + {outputFile};
      if exists b :: b in backups && b.filename == filename {
        return Err(DuplicateFilenameMessage);
      }
      var record := BackupHistory(nextId, filename, outputFile, Some(fileSize), "manual", userId, now, "completed", notes);
      backups := backups + [record];
      nextId := nextId + 1;
      var deleted := CleanupOldBackups(maxBackupsToKeep);
      return Ok(record);
    }

    /** `cleanup_old_backups`: delete the retired backups' files and rows,
        counting them. */
    method CleanupOldBackups(maxBackupsToKeep: int) returns (deletedCount: nat)
      modifies this
      ensures var retired := Retired(old(backups), maxBackupsToKeep);
        && deletedCount == |retired|
        && backups == Without(old(backups), IdsOf(retired))
        && files == old(files) - PathsOf(retired)
      ensures nextId == old(nextId)
    {
      var sorted := NewestFirst(backups);
      if |sorted| <= maxBackupsToKeep {
        WithoutNothing(backups);
        assert IdsOf([]) == {} && PathsOf([]) == {};
        return 0;
      }
      var toDelete := sorted[SliceStart(|sorted|, maxBackupsToKeep)..];
      deletedCount := DeleteEach(toDelete);
    }

    /** The deletion loop of `cleanup_old_backups`: each listed backup's
        file (if present) and row go, and each is counted. */
    method DeleteEach(toDelete: seq<BackupHistory>) returns (deletedCount: nat)
      modifies this
      ensures deletedCount == |toDelete|
      ensures backups == Without(old(backups), IdsOf(toDelete)) && files == old(files) - PathsOf(toDelete)
      ensures nextId == old(nextId)
    {
      deletedCount := 0;
      WithoutNothing(backups);
      assert IdsOf(toDelete[..0]) == {} && PathsOf(toDelete[..0]) == {};
      while deletedCount < |toDelete|
        invariant deletedCount <= |toDelete|
        invariant backups == Without(old(backups), IdsOf(toDelete[..deletedCount]))
        invariant files == old(files) - PathsOf(toDelete[..deletedCount])
        invariant nextId == old(nextId)
      {
        var backup := toDelete[deletedCount];
        if backup.filePath in files {
          files := files - {backup.filePath};
        }
        backups := Without(backups, {backup.id});
        DeleteStep(old(backups), old(files), toDelete, deletedCount);
        deletedCount := deletedCount + 1;
      }
      assert toDelete[..deletedCount] == toDelete;
    }

    /** `list_backups`: one page of the backups, newest first, skipping
        `offset` rows and taking at most `limit`. */
    function ListBackups(limit: nat, offset: nat): (r: seq<BackupHistory>)
      reads this
      ensures |r| <= limit && NewestFirstOrder(r)
      ensures forall b :: b in r ==> b in backups
      ensures |r| == if offset >= |backups| then 0 else if offset + limit <= |backups| then limit else |backups| - offset
      ensures offset == 0 && limit >= |backups| ==> multiset(r) == multiset(backups)
    {
      var all := NewestFirst(backups);
      var lo := if offset < |all| then offset else |all|;
      var hi := if lo + limit < |all| then lo + limit else |all|;
      PageOfAll(all, backups, lo, hi);
      all[lo..hi]
    }

    /** Consecutive pages join up: the page after the first `a` rows
        continues the first page, with no row skipped or repeated. */
    lemma PagesJoin(a: nat, b: nat)
      ensures ListBackups(a, 0) + ListBackups(b, a) == ListBackups(a + b, 0)
    {
      var all := NewestFirst(backups);
      var n := |all|;
      var i := if a < n then a else n;
      var j := if i + b < n then i + b else n;
      assert all[..i] + all[i..j] == all[..j];
    }

    /** `get_backup_by_id`. */
    function GetBackupById(backupId: nat): (r: Option<BackupHistory>)
      reads this
      ensures r.Some? ==> r.value in backups && r.value.id == backupId
      ensures r.None? ==> backupId !in IdsOf(backups)
    {
      FindBackup(backups, backupId)
    }

    /** `delete_backup`: False for an unknown id; otherwise the file goes
        if present and the row goes. */
    method DeleteBackup(backupId: nat, userId: nat) returns (ok: bool)
      modifies this
      ensures ok <==> backupId in IdsOf(old(backups))
      ensures ok ==> backups == Without(old(backups), {backupId})
                     && files == old(files) - {FindBackup(old(backups), backupId).value.filePath}
      ensures !ok ==> backups == old(backups) && files == old(files)
      ensures nextId == old(nextId)
    {
      var backup := GetBackupById(backupId);
      if backup.None? {
        return false;
      }
      if backup.value.filePath in files {
        files := files - {backup.value.filePath};
      }
      backups := Without(backups, {backupId});
      return true;
    }
  }

  /** The first row with the id. */
  function FindBackup(bs: seq<BackupHistory>, backupId: nat): (r: Option<BackupHistory>)
    ensures r.Some? ==> r.value in bs && r.value.id == backupId
    ensures r.None? ==> backupId !in IdsOf(bs)
    decreases |bs|
  {
    if |bs| == 0 then None
    else if bs[0].id == backupId then Some(bs[0])
    else
      var r := FindBackup(bs[1..], backupId);
      assert r.None? ==> forall b :: b in bs ==> b == bs[0] || b in bs[1..];
      r
  }

  /** What the `try` block of `create_backup` does to the table and the
      disk, and what it returns: a failed dump raises and records nothing;
      a dump whose file name is already recorded leaves its file but fails
      the commit; otherwise a completed manual backup by the user, named
      after the timestamp and stored in the backup directory, is recorded
      and the retention rule applied. */
  function Backup(backups: seq<BackupHistory>, files: set<string>, nextId: nat, userId: nat, notes: Option<string>,
                  timestamp: string, dumpOk: bool, fileSize: nat, now: int, backupDir: string, maxBackupsToKeep: int)
    : (r: (seq<BackupHistory>, set<string>, Result<BackupHistory>))
    ensures r.2.Ok? ==> dumpOk && r.2.value.status == "completed" && r.2.value.backupType == "manual"
                        && r.2.value.filename == "backup_" + timestamp + ".sql" && r.2.value.createdById == userId
                        && r.2.value.filePath == PathJoin(backupDir, r.2.value.filename)
    ensures !dumpOk ==> r == (backups, files, Err(BackupFailedMessage))
    ensures r.2.Err? ==> r.0 == backups
  {
    var filename := BackupFilename(timestamp);
    var outputFile := PathJoin(backupDir, filename);
    if !dumpOk then (backups, files, Err(BackupFailedMessage))
    else if exists b :: b in backups && b.filename == filename then
      (backups, files + {outputFile}, Err(DuplicateFilenameMessage))
    else
      var record := BackupHistory(nextId, filename, outputFile, Some(fileSize), "manual", userId, now, "completed", notes);
      var all := backups + [record];
      var retired := Retired(all, maxBackupsToKeep);
      (Without(all, IdsOf(retired)), (files + {outputFile}) - PathsOf(retired), Ok(record))
  }

  /** With at least one backup kept, a new backup strictly newer than
      every other survives its own clean-up. */
  lemma NewBackupKept(backups: seq<BackupHistory>, record: BackupHistory, keep: int)
    requires keep >= 1
    requires forall b :: b in backups ==> b.createdAt < record.createdAt && b.id != record.id
    ensures record in Without(backups + [record], IdsOf(Retired(backups + [record], keep)))
  {
    var all := backups + [record];
    if |all| > keep {
      var sorted := NewestFirst(all);
      var start := SliceStart(|all|, keep);
      NewestAtFront(all, record);
      OnlyAtFront(sorted, record);
      RetentionKeepsNewest(all, keep);
      assert start >= 1;
      SuffixOmits(sorted, start, record);
      forall r | r in Retired(all, keep)
        ensures r.id != record.id
      {
        assert r in all && r != record;
      }
    }
    WithoutMembers(all, IdsOf(Retired(all, keep)));
  }

  /** A row strictly newer than every other row is listed first, once. */
  lemma NewestAtFront(all: seq<BackupHistory>, record: BackupHistory)
    requires record in all && multiset(all)[record] == 1
    requires forall b :: b in all && b != record ==> b.createdAt < record.createdAt
    ensures NewestFirst(all)[0] == record && multiset(NewestFirst(all))[record] == 1
  {
    var sorted := NewestFirst(all);
    assert record in multiset(sorted);
    var k :| 0 <= k < |sorted| && sorted[k] == record;
    assert sorted[0] in multiset(all);
    assert sorted[0].createdAt >= record.createdAt;
  }

  lemma SuffixOmits(s: seq<BackupHistory>, start: nat, x: BackupHistory)
    requires 1 <= start <= |s| && x !in s[1..]
    ensures x !in s[start..]
  {
    assert s[start..] == s[1..][start - 1..];
  }

  lemma OnlyAtFront(s: seq<BackupHistory>, x: BackupHistory)
    requires |s| > 0 && s[0] == x && multiset(s)[x] == 1
    ensures x !in s[1..]
  {
    assert s == [s[0]] + s[1..];
    assert multiset(s) == multiset{x} + multiset(s[1..]);
  }
}
