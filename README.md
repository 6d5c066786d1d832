# LMS file catalogue: a verified model

This project models the core of a small learning-management system. The
backend is a FastAPI service. It walks a root folder on disk (categories,
then courses, then each course's files) and reconciles three database
tables with what it finds: `categories`, `courses` and `file_nodes`. The
frontend is an Angular client that browses those tables.

The model covers the following parts of the system.

- **The scanner.** `scan_root_folder` gets or creates the category and
  course rows. `_scan_course_files` reconciles one course in two passes
  over the course's walk. The first pass creates folder nodes. The second
  filters files through three security checks and adds or updates their
  nodes. Stored nodes that were not seen are then deleted.
- **The reliable scanner.** `ReliableScannerService` wraps the scanner in
  a scan record with a status machine (pending, running, then completed,
  partial or failed). A single-row lock keeps two runs apart. Files
  rejected for their extension are counted and logged as scan errors.
- **The security and configuration checks.** These include path
  containment, the extension allow-list, the size ceiling and filename
  sanitising. They also include the settings' field validators and the
  root-path validation.
- **In-memory services.**
  - the background-task registry;
  - the sliding-window rate limiter;
  - the TTL cache;
  - the operation lock, with the backup and restore services that hold it;
  - the backup retention rule.
- **Access rules.** These cover enrolment-based access, notification
  visibility and read state, search, the user-administration endpoints
  and progress tracking.
- **Frontend state.** This covers the tree-expansion state, the search
  panel's view mode, the file tree built from parent pointers, the folder
  listing, the extension tables and the configuration checks.

## How the model is organised

- **Modules.** Each module corresponds to one source file. Its doc comment
  names the functions of that file it models.
- **Code written as expressions** becomes datatypes, functions and lemmas.
  Examples are the checks, the tables and the frontend's pure helpers.
- **Code that updates objects or tables in place** becomes classes with
  `modifies` clauses and loops with invariants. Each such method is proved
  against a specification function:
  - the scanner's `Catalog` is proved against the folds `DirPass`,
    `FilePass`, `ScanCourse` and `ScanRoot`;
  - `ReliableScannerService` is proved against `TrackedRun`;
  - the services' classes are proved against functions over their maps and
    sequences.
- **The properties the system promises** are lemmas about those
  specification functions. Examples are idempotence of a course rescan,
  parent links, the status machine, the retention rule and rate-limit
  bounds.
- **Inputs the code reads from the environment** become parameters:
  - the file system (listings, sizes, `realpath`);
  - the clock (an integer `now`);
  - the database's answers;
  - the outcome of external processes.

## Model

| member | source | states |
|---|---|---|
| ScannerService.TypeOfExtension | backend/app/services/scanner_service.py:15-22 | the table lookup never yields "folder"; an empty or unlisted extension is "unknown", a listed one its table entry |
| ScannerService.FileTypeOf | backend/app/services/scanner_service.py:255-260 | `_get_file_type` never types a file as a folder, and a name without a `pathlib` suffix is "unknown" |
| ScannerService.PolicyOf | backend/app/services/scanner_service.py:188-204 | the three file checks are exactly `is_safe_path` on the rendered paths, `validate_extension` against the configured list and `validate_file_size` against MAX_FILE_SIZE, and new nodes are typed by `_get_file_type` |
| ScannerService.DirStep | backend/app/services/scanner_service.py:147-178 | one directory of the first pass: after a failure nothing changes; it is marked seen; a directory the course has keeps the table, id sequence and `added`; otherwise the insert fails exactly when another course stores the path, and when it does not, a folder node of the course is stored under the next id and `added` grows by one |
| ScannerService.FileStep | backend/app/services/scanner_service.py:184-204 | one file of the second pass: it is marked seen exactly when it passes the three checks, its name is recorded as rejected exactly when it is safe but its extension is refused, a failure stays, and a file that fails the checks leaves the table, id sequence and failure flag alone |
| ScannerService.AcceptFile | backend/app/services/scanner_service.py:206-241 | one checked file: marked seen; the flush fails exactly when the path is not the course's and another course stores it; an existing node keeps its id and `added`, `updated` grows exactly when the size differs and the node then has the on-disk size; a new path becomes a file node of the course with its size under the next id |
| ScannerService.DirPass | backend/app/services/scanner_service.py:143-178 | the first pass: after a failure nothing changes, no rejection is recorded, and when it does not fail every walked directory is marked seen |
| ScannerService.FilePass | backend/app/services/scanner_service.py:180-241 | the second pass: a failure stays to its end, and the seen set and rejection list only grow |
| ScannerService.ScanCourse | backend/app/services/scanner_service.py:121-253 | a failed course scan leaves the node table and id sequence as they were and reports 0 added, updated and removed; this is the intended clean-up, in which an unseen node goes even when progress or last-viewed rows refer to it (see Findings) |
| ScannerService.ScanCourseAsWritten | backend/app/services/scanner_service.py:243-247 | as written: a scan that would delete an unseen node still referred to by a progress or last-viewed row fails, keeping the table and id sequence; any other scan is the intended one, and a successful one keeps every referenced node of the course |
| ScannerService.DirPassFailedStays | backend/app/services/scanner_service.py:173-174 | once an insertion of the first pass fails (a path stored by another course), the rest of the pass changes nothing |
| ScannerService.FilePassFailedStays | backend/app/services/scanner_service.py:180-241 | once an insertion of the second pass fails (an unflushed insert of a path stored by another course), the pass stays failed to its end, while the later files are still checked |
| ScannerService.FindCategory | backend/app/services/scanner_service.py:58-60 | the category found has the name; none found means no category has it |
| ScannerService.FindCourse | backend/app/services/scanner_service.py:76-79 | the course found has the category id and the name; none found means no course has both |
| ScannerService.FindCourseAppend | backend/app/services/scanner_service.py:81-89 | a course appended when none matched is the one a later lookup finds |
| ScannerService.FindCategoryAppend | backend/app/services/scanner_service.py:62-66 | a category appended when none matched is the one a later lookup finds |
| ScannerService.CourseRow | backend/app/services/scanner_service.py:75-89 | get-or-create of a course: an existing row is reused with nothing changed; otherwise exactly one row is appended and `courses_found` grows by one; the row picked is found afterwards |
| ScannerService.CategoryRow | backend/app/services/scanner_service.py:57-66 | get-or-create of a category, with the same reuse, append and count guarantees |
| ScannerService.CourseStep | backend/app/services/scanner_service.py:72-95 | one course directory: nothing happens after a failure, the category table is kept, rejections only grow, and a course that fails leaves the node table as it was |
| ScannerService.ScanCourses | backend/app/services/scanner_service.py:72-95 | the course loop of a category: nothing happens after a failure, the category table is kept and the rejection list only grows at its end |
| ScannerService.CategoryStep | backend/app/services/scanner_service.py:54-95 | one category directory: nothing happens after a failure, rejections only grow at the end, and a category whose courses cannot be listed fails with the node table as it was |
| ScannerService.ScanCategories | backend/app/services/scanner_service.py:54-95 | the category loop: nothing happens after a failure and the rejection list only grows at its end |
| ScannerService.ScanCoursesFailedStays | backend/app/services/scanner_service.py:72-95 | after a failed course the remaining courses of the category change nothing (the exception ends the loop) |
| ScannerService.ScanCategoriesFailedStays | backend/app/services/scanner_service.py:54-95 | after a failed category the remaining categories change nothing |
| ScannerService.ScanRoot | backend/app/services/scanner_service.py:27-119 | a missing root is a failure that rejects no file; every failure leaves the tables as they were with all five counters 0 (rollback); the clean-up of unseen nodes is the intended one (see Findings) |
| ScannerService.ScanRootStops | backend/app/services/scanner_service.py:109-119 | a category loop that fails at any point ends in a result whose message begins "Error during scan: ", with zero counters and the tables as before the scan |
| ScannerService.StoreFile | backend/app/services/scanner_service.py:206-241 | on local copies: a checked file is marked seen and either inserted under the next id, or has its stored size overwritten when it differs, exactly as `AcceptFile` says; it reports a clash exactly when the path is not the course's and is stored already, and a clash marks the walk failed without stopping it |
| ScannerService.Catalog.constructor | backend/app/services/scanner_service.py:24-25 | the catalog starts as the given tables |
| ScannerService.Catalog.PassDirectories | backend/app/services/scanner_service.py:143-178 | the first pass in place: the node table, id sequence, seen set, created folders and added count are those of the `DirPass` fold |
| ScannerService.Catalog.PassFiles | backend/app/services/scanner_service.py:180-241 | the second pass in place, to the last file even after a clash: node table, id sequence, seen set, counters, extension rejections and the failure flag are those of the `FilePass` fold |
| ScannerService.Catalog.DeleteUnseen | backend/app/services/scanner_service.py:243-247 | exactly the existing nodes whose path was not seen are deleted, and `removed` counts them; the deletion of unseen nodes is the intended one (see Findings) |
| ScannerService.Catalog.GetOrCreateCourse | backend/app/services/scanner_service.py:75-89 | the course lookup in place equals `CourseRow` |
| ScannerService.Catalog.GetOrCreateCategory | backend/app/services/scanner_service.py:57-66 | the category lookup in place equals `CategoryRow` |
| ScannerService.Catalog.VisitCourse | backend/app/services/scanner_service.py:72-95 | one course of the inner loop in place equals `CourseStep` |
| ScannerService.Catalog.VisitCourses | backend/app/services/scanner_service.py:72-95 | the inner loop in place equals the `ScanCourses` fold, stopping at the first failure |
| ScannerService.Catalog.VisitCategory | backend/app/services/scanner_service.py:54-95 | one category in place equals `CategoryStep`; an unlistable category fails |
| ScannerService.Catalog.ScanRootFolder | backend/app/services/scanner_service.py:27-119 | `scan_root_folder` in place: result, tables and extension rejections equal `ScanRoot`, with the tables restored on failure; the deletion of unseen nodes is the intended one (see Findings) |
| ScannerService.Catalog.ScanCategoryDirs | backend/app/services/scanner_service.py:49-107 | the category loop over a listed root, with rollback on failure, equals `ScanRoot`; the deletion of unseen nodes is the intended one (see Findings) |
| ScannerService.Catalog.ScanCourseFiles | backend/app/services/scanner_service.py:121-253 | `_scan_course_files` in place: on success the node table, id sequence and the three counters are those of `ScanCourse`; the deletion of unseen nodes is the intended one (see Findings) |
| ScannerProofs.DirSet | backend/app/services/scanner_service.py:147-150 | a path is among the first pass's seen directories exactly when the walk lists it |
| ScannerProofs.AcceptedPathsMembers | backend/app/services/scanner_service.py:188-206 | a path is added to `scanned_paths` by the second pass exactly when some walked file at that path passes all three checks |
| ScannerProofs.DirStepSound | backend/app/services/scanner_service.py:147-178 | one directory of the first pass keeps the reconciliation sound: unseen paths untouched, seen paths owned by the course, earlier nodes kept, `added` counting new paths |
| ScannerProofs.FileStepCases | backend/app/services/scanner_service.py:188-204 | a file failing any of the three checks changes nothing but the extension-rejection list; a file passing them goes to the insert-or-update step |
| ScannerProofs.AcceptFileSound | backend/app/services/scanner_service.py:206-241 | one accepted file keeps the reconciliation sound |
| ScannerProofs.FileStepSound | backend/app/services/scanner_service.py:184-241 | one file of the second pass keeps the reconciliation sound |
| ScannerProofs.DirPassSound | backend/app/services/scanner_service.py:143-178 | the whole first pass keeps the reconciliation sound |
| ScannerProofs.DirPassShape | backend/app/services/scanner_service.py:143-178 | the first pass sees exactly the walked directories, rejects nothing and updates nothing |
| ScannerProofs.FilePassSound | backend/app/services/scanner_service.py:180-241 | the whole second pass keeps the reconciliation sound |
| ScannerProofs.FilePassShape | backend/app/services/scanner_service.py:180-241 | the second pass records exactly the extension rejections whether or not an insertion failed, creates no folder, and when none failed sees exactly the accepted files |
| ScannerProofs.FileStepShape | backend/app/services/scanner_service.py:184-241 | one file adds its name to the rejections exactly when its extension is refused (also after a failure), and its path to the seen set only when accepted |
| ScannerProofs.PassesSound | backend/app/services/scanner_service.py:143-241 | both passes together, when neither failed, are sound and have seen exactly the directories and the accepted files |
| ScannerProofs.PassesStaySound | backend/app/services/scanner_service.py:143-241 | both passes together keep the reconciliation sound |
| ScannerProofs.PassesShape | backend/app/services/scanner_service.py:143-241 | from an empty seen set, both passes see the observed paths and reject exactly the refused names |
| ScannerProofs.DeleteUnseenSound | backend/app/services/scanner_service.py:243-247 | after the deletion the course's nodes are exactly the seen paths, and other courses' nodes are as they were |
| ScannerProofs.ScanCourseNodes | backend/app/services/scanner_service.py:121-253 | on success the course's nodes are exactly the observed paths, other courses' nodes are untouched, `added` counts the new paths and `removed` the unseen existing ones; on failure nothing changes and the counters are 0 |
| ScannerProofs.ScanCourseAsWrittenStuck | backend/app/services/scanner_service.py:109-247 | as written, a scan succeeds exactly when the intended one does and none of the unseen existing nodes it removes is referenced; a refused scan keeps the tables, reports zero counters, and a rescan of the same tree is refused again, so the unseen node is never removed |
| ScannerProofs.RemovedAreUnobserved | backend/app/services/scanner_service.py:243-247 | after a successful scan an existing node of the course is gone exactly when its path was not observed |
| ScannerProofs.OpenedFileRemovedAsWritten | backend/app/services/scanner_service.py:243-247 | a course whose only stored file (id 5, "notes.pdf") has vanished from disk while a progress row refers to it: the intended scan deletes it and reports one removal; as written the scan fails and keeps it, and so does every rescan |
| ScannerProofs.DirPassKeepsExisting | backend/app/services/scanner_service.py:152 | the first pass never rewrites a node the course already had |
| ScannerProofs.FilePassSizes | backend/app/services/scanner_service.py:235-241 | with distinct file paths, every accepted file's node has the on-disk size after the second pass and other existing nodes are unchanged |
| ScannerProofs.FileStepSizes | backend/app/services/scanner_service.py:206-241 | one accepted file's node gets the on-disk size, and every other node stays as it was |
| ScannerProofs.ChecksIgnoreExisting | backend/app/services/scanner_service.py:188-204 | whether a file passes the checks depends on the course path and the settings only, never on the stored nodes |
| ScannerProofs.DirPassNoOp | backend/app/services/scanner_service.py:152 | directories the course already has are only marked seen |
| ScannerProofs.FilePassNoOp | backend/app/services/scanner_service.py:235-241 | files already stored with the on-disk size are only marked seen (modification time is ignored); rejections are recorded as always |
| ScannerProofs.FileStepNoOp | backend/app/services/scanner_service.py:235-241 | one already-stored file of equal size changes nothing but the seen set |
| ScannerProofs.ScanCourseSizes | backend/app/services/scanner_service.py:222-241 | with distinct file paths, a successful scan leaves every accepted file's node with the size read from disk |
| ScannerProofs.ScanCourseFixedPoint | backend/app/services/scanner_service.py:121-253 | a store whose course nodes are exactly the observed paths, with the on-disk sizes, is returned unchanged with added = updated = removed = 0 |
| ScannerProofs.PassesNoOp | backend/app/services/scanner_service.py:143-241 | on such a store both passes only mark the observed paths seen and record the rejections |
| ScannerProofs.ScanCourseIdempotent | backend/app/services/scanner_service.py:121-253 | idempotence: a second scan of the same tree from the first scan's result changes nothing and reports added = updated = removed = 0 |
| ScannerProofs.RescanPremises | backend/app/services/scanner_service.py:134 | after a successful scan the course's nodes are exactly the observed paths with the on-disk sizes, and the rejections are those a rescan makes |
| ScannerProofs.RescanKeys | backend/app/services/scanner_service.py:134 | after a successful scan the course's stored paths are exactly what a rescan observes |
| ScannerProofs.RescanSizes | backend/app/services/scanner_service.py:238-241 | after a successful scan every file a rescan accepts is stored with its on-disk size |
| ScannerProofs.ExistingStaysLinked | backend/app/services/scanner_service.py:152 | a node the course had keeps the parent link it had |
| ScannerProofs.ParentForLinks | backend/app/services/scanner_service.py:153-161 | the parent id given to a new node is null directly under the course, otherwise the id of the stored or newly created node at the parent path, once that directory is known |
| ScannerProofs.DirStepLinked | backend/app/services/scanner_service.py:147-178 | one directory of the first pass keeps every seen node linked to its parent directory's node |
| ScannerProofs.DirStepFolders | backend/app/services/scanner_service.py:176-177 | a created folder is recorded in `new_folders_map` under the id it was stored with |
| ScannerProofs.AcceptFileLinked | backend/app/services/scanner_service.py:208-234 | a new file node is linked to its parent directory's node |
| ScannerProofs.AcceptExistingLinked | backend/app/services/scanner_service.py:235-241 | updating an existing file's size keeps its link |
| ScannerProofs.AcceptExistingStore | backend/app/services/scanner_service.py:235-241 | an existing file's node is at most given the on-disk size, and nothing else in the store changes |
| ScannerProofs.AcceptFileFolders | backend/app/services/scanner_service.py:206-241 | the second pass never changes the created-folder map's ids |
| ScannerProofs.DirPassFolders | backend/app/services/scanner_service.py:143-178 | after the first pass every walked directory has a node, existing or created |
| ScannerProofs.DirPassLinked | backend/app/services/scanner_service.py:143-178 | after the first pass every seen directory is linked, when directories come after their parents in the walk |
| ScannerProofs.FilePassFolders | backend/app/services/scanner_service.py:180-241 | the directories known after the first pass stay known through the second |
| ScannerProofs.FilePassLinked | backend/app/services/scanner_service.py:180-241 | after the second pass every seen node is linked |
| ScannerProofs.WalkLinked | backend/app/services/scanner_service.py:143-241 | both passes over a walk leave every seen node linked, given the course's nodes were linked before |
| ScannerProofs.DeleteUnseenLinked | backend/app/services/scanner_service.py:243-247 | deleting the unseen nodes leaves every remaining node of the course linked |
| ScannerProofs.ScanCourseLinked | backend/app/services/scanner_service.py:153-161 | parent links: after a successful scan every node of the course refers to the node at its parent path, or to nothing directly under the course |
| ScannerProofs.ObservedParent | backend/app/services/scanner_service.py:144-148 | an observed path lies below the course, and its parent is the course directory or a walked directory |
| ScannerProofs.FreshAfterNew | backend/app/services/scanner_service.py:165-177 | a node stored under the next id keeps the created nodes' shape and distinct ids |
| ScannerProofs.DirStepFresh | backend/app/services/scanner_service.py:165-172 | a created folder node has its directory's path and name, type "folder", `is_directory` true and a fresh id |
| ScannerProofs.FreshAfterOld | backend/app/services/scanner_service.py:237-241 | overwriting a node the store started with keeps the created nodes' shape |
| ScannerProofs.AcceptFileFresh | backend/app/services/scanner_service.py:221-234 | a created file node has its file's path and name, the type from its name, `is_directory` false, its size and a fresh id |
| ScannerProofs.DirPassFresh | backend/app/services/scanner_service.py:143-178 | the first pass creates only well-shaped folder nodes with fresh ids |
| ScannerProofs.FilePassFresh | backend/app/services/scanner_service.py:180-241 | the second pass creates only well-shaped file nodes with fresh ids |
| ScannerProofs.DeleteUnseenFresh | backend/app/services/scanner_service.py:243-247 | the deletion keeps the created nodes' shape, and ids stay a primary key below the next free id |
| ScannerProofs.WalkIds | backend/app/services/scanner_service.py:174 | the ids after both passes are a primary key below the next free id |
| ScannerProofs.ScanCourseNewNodes | backend/app/services/scanner_service.py:147-234 | a successful scan creates exactly one folder node per walked directory not stored before and one file node per new accepted file, with distinct ids below the next free id |
| ScannerRootProofs.FindCategoryStable | backend/app/services/scanner_service.py:57-60 | looking a category up by name gives the same row after rows are appended, when it was found before |
| ScannerRootProofs.FindCourseStable | backend/app/services/scanner_service.py:76-79 | looking a course up by category and name gives the same row after rows are appended, when it was found before |
| ScannerRootProofs.CourseStepRows | backend/app/services/scanner_service.py:72-95 | one course directory keeps the category table, only appends to the course table (as many rows as `courses_found` grew by), creates no duplicate course, and on success leaves a row for that course under its category |
| ScannerRootProofs.ScanCoursesRows | backend/app/services/scanner_service.py:72-95 | the course loop of one category does the same for every course directory listed |
| ScannerRootProofs.CategoryStepRows | backend/app/services/scanner_service.py:54-95 | one category directory only appends to both tables, by exactly the rows the two counters count, creates no duplicates, and on success leaves rows for the category and all its courses |
| ScannerRootProofs.FoundStable | backend/app/services/scanner_service.py:54-95 | rows found by earlier categories are still found after later categories append rows |
| ScannerRootProofs.ScanCategoriesRows | backend/app/services/scanner_service.py:49-107 | the category loop does the same for every category directory listed |
| ScannerRootProofs.ScanRootRows | backend/app/services/scanner_service.py:27-119 | `scan_root_folder`: a successful scan keeps every existing row, adds exactly `categories_found` categories and `courses_found` courses, duplicates nothing and leaves a row for every listed category and course; a failed scan changes nothing and reports zero counters |
| ReliableScanner.LockBusyMessage | backend/app/services/reliable_scanner_service.py:44-45 | the refusal is "Scan already in progress (started at ", then the holder's `locked_at` as `str` writes it, then ")" |
| ReliableScanner.FinalStatus | backend/app/services/reliable_scanner_service.py:150-159 | the final status of a run that reached the scanner is final and reachable from RUNNING; COMPLETED exactly when the scan succeeded with no errors, PARTIAL exactly when it succeeded with errors, FAILED exactly when it failed |
| ReliableScanner.ErrorRows | backend/app/services/reliable_scanner_service.py:86-98 | one ScanError row per rejected name, in order, each for this run and that name |
| ReliableScanner.ErrorRowsSnoc | backend/app/services/reliable_scanner_service.py:86-98 | one more rejected name appends exactly one "invalid_extension" row for that name |
| ReliableScanner.ErrorRowsShape | backend/app/services/reliable_scanner_service.py:86-98 | every logged row belongs to this run, has type "invalid_extension" and names a rejected file |
| ReliableScanner.TrackedRun | backend/app/services/reliable_scanner_service.py:100-194 | status machine: a record starts PENDING, every change of status is an allowed move, the last status is final and is the one reported, the record is completed at the run's time and belongs to the user, and the run succeeds exactly when the status is not FAILED; the run takes the lock exactly when it is not held, and a refused run leaves the catalog untouched, logs nothing and fails its record with "Scan already in progress (started at …)" naming the holder's start time |
| ReliableScanner.TrackedRunErrors | backend/app/services/reliable_scanner_service.py:86-98 | the error counter is the record's `errors_count`; once the scanner ran it counts exactly the extension rejections, the rows are kept only when the scan succeeded, and the record is PARTIAL exactly when a successful scan counted errors; every logged row belongs to this run |
| ReliableScanner.AcquiredRun | backend/app/services/reliable_scanner_service.py:129-168 | once the lock is taken the record goes PENDING, RUNNING, then a final status that is reported; an invalid root fails the run before scanning with the catalog untouched, nothing logged and the reason in the record and the message |
| ReliableScanner.ScannedRun | backend/app/services/reliable_scanner_service.py:141-168 | a run that reached the scanner goes PENDING, RUNNING, then a final status, succeeds exactly when not FAILED, and is PARTIAL exactly when a successful scan counted errors |
| ReliableScanner.LastFinished | backend/app/services/reliable_scanner_service.py:241-244 | the last scan is a finished record no finished record is later than (by `completed_at` descending), and there is none exactly when no record is finished |
| ReliableScanner.FindScan | backend/app/services/reliable_scanner_service.py:234-239 | the record found has the id asked for; none is found only when no record has it |
| ReliableScanner.ScanStatusOf | backend/app/services/reliable_scanner_service.py:226-264 | `get_scan_status`: scanning exactly when the lock is held; the current id and holder are reported only then; a status and start time are reported exactly when the held id is non-zero and a record with that id exists, and are that record's; the last scan is the last finished record |
| ReliableScanner.ReliableScannerService.constructor | backend/app/services/reliable_scanner_service.py:24-28 | the service starts over the given tables, with the original validator, no current run and the settings' checks and extension list |
| ReliableScanner.ReliableScannerService.AcquireLock | backend/app/services/reliable_scanner_service.py:30-58 | the lock is taken exactly when it was not held, for this user, time and run; otherwise it is left as it was and the refusal "Scan already in progress (started at …)" names the time the holder took it |
| ReliableScanner.ReliableScannerService.ReleaseLock | backend/app/services/reliable_scanner_service.py:60-72 | the lock row, when present, becomes free with every holder field cleared, whoever held it |
| ReliableScanner.ReliableScannerService.CreateScanRecord | backend/app/services/reliable_scanner_service.py:74-84 | a new PENDING record under the next id is appended and nothing else changes |
| ReliableScanner.ReliableScannerService.LogError | backend/app/services/reliable_scanner_service.py:86-98 | exactly one error row is appended and the counter grows by one |
| ReliableScanner.ReliableScannerService.LogRejections | backend/app/services/reliable_scanner_service.py:86-98 | one error row and one count per rejected name, in order |
| ReliableScanner.ReliableScannerService.ExecuteScanWithTracking | backend/app/services/reliable_scanner_service.py:196-224 | the catalog and result are those of the plain scan, the counter grows by the number of extension rejections, the rows survive only when the scan succeeded, and the original validator is back afterwards |
| ReliableScanner.ReliableScannerService.RecordScan | backend/app/services/reliable_scanner_service.py:141-168 | the record takes the scan's counters and final status, and the result reports them with the run's id and error count |
| ReliableScanner.ReliableScannerService.RunScan | backend/app/services/reliable_scanner_service.py:137-168 | the tracked scan and final record produce exactly the outcome the run specification gives for a valid root |
| ReliableScanner.ReliableScannerService.RunAcquired | backend/app/services/reliable_scanner_service.py:129-168 | after the lock is taken the run produces exactly the specified outcome: RUNNING, root validation, tracked scan, final record |
| ReliableScanner.ReliableScannerService.RecordRefused | backend/app/services/reliable_scanner_service.py:114-126 | a refused run fails its record at once with the refusal message, start time included, and reports no counters |
| ReliableScanner.ReliableScannerService.Track | backend/app/services/reliable_scanner_service.py:114-168 | the run of the new record, up to the release, produces exactly the specified outcome, and leaves the lock as it was when refused |
| ReliableScanner.ReliableScannerService.RunBeforeRelease | backend/app/services/reliable_scanner_service.py:100-190 | everything before the `finally`: the new record is current, the counter restarts, and the tables end as the run specification says |
| ReliableScanner.ReliableScannerService.ScanRootFolderReliable | backend/app/services/reliable_scanner_service.py:100-194 | the run produces the specified result, record, catalog and error rows, and the lock row is free afterwards on every path, including a refused one |
| ReliableScanner.ReliableScannerService.ScanRootFolderReliableGuarded | backend/app/services/reliable_scanner_service.py:114-126 | the corrected run: same outcome, but a refused run leaves the other run's lock as it was, and only a run that took the lock frees it |
| ReliableScanner.RefusedRunFreesHeldLock | backend/app/services/reliable_scanner_service.py:192-194 | as written, a run refused because the lock is held leaves the lock free while the holder is still scanning |
| ReliableScanner.RefusedRunKeepsHeldLock | backend/app/services/reliable_scanner_service.py:114-126 | with the guarded release, a refused run leaves the lock held exactly as it found it |
| ScanHistoryModel.NewScanHistory | backend/app/models/scan_history.py:18-43 | a new record is PENDING (not final), has every counter at zero and no completion time or message, and carries its id, user, start time and root path |
| FileNodeModel.CourseNodes | backend/app/services/scanner_service.py:129-134 | `existing_paths`: a path is among the course's nodes exactly when the store has a node of that course at it, with the same node |
| FileNodeModel.LinkedParentIsShorter | backend/app/models/file_node.py:14 | parent links form a forest: the parent of a linked node that is not directly under the course is itself a node of the course, below the course directory, one segment shorter |
| SecurityUtils.ValidatePath | backend/app/core/security_utils.py:36-69 | valid exactly when both paths resolve, the file's resolved path starts with the root's, and it exists and is a regular file; a path outside the root gets the traversal message; a path that cannot be resolved gets "Path validation error: " and the raised exception's text, the file's path being resolved first |
| SecurityUtils.SymlinkCheckNeverFires | backend/app/core/security_utils.py:51-56 | the symbolic-link message is never returned: the link check re-tests a path that already passed the containment test |
| SecurityUtils.LowerExtension | backend/app/core/security_utils.py:78 | the lower-cased extension is empty or a dot followed by no further dot |
| SecurityUtils.ValidateExtension | backend/app/core/security_utils.py:72-88 | valid exactly when there is an extension and it is one of the allowed entries; no extension gives its own message |
| SecurityUtils.ExtensionChecksAgree | backend/app/core/security_utils.py:72-88 | the scanner's extension check and `is_extension_allowed` agree on every name with an extension; on names without one the check refuses while `is_extension_allowed` admits exactly when the list has an empty entry |
| SecurityUtils.ValidateMimeType | backend/app/core/security_utils.py:91-118 | valid exactly when the extension has an expected type and the guessed type is missing, equal to it, or one of the generic aliases |
| SecurityUtils.CheckSize | backend/app/core/security_utils.py:128-141 | a measured size passes exactly when it is at most the ceiling; a larger one gets "File size (<size> MB) exceeds limit (<ceiling> MB)" with both figures as `:.2f` prints them; an unreadable size gets "Error checking file size: " and the raised exception's text |
| SecurityUtils.Hundredths | backend/app/core/security_utils.py:133-134 | `:.2f` of a byte count over 1024 * 1024: the nearest hundredth, a tie going to the even hundredth |
| SecurityUtils.TwoDigits | backend/app/core/security_utils.py:133-134 | the two decimals of a hundredth count below 100, with a leading zero, read back as that count |
| SecurityUtils.Megabytes | backend/app/core/security_utils.py:133-134 | the megabyte figure: an optional minus sign, the whole megabytes, a dot and two decimals |
| SecurityUtils.MegabytesExamples | backend/app/core/security_utils.py:133-134 | 1.5 MiB prints as "1.50" and 1 MiB as "1.00" |
| SecurityUtils.OverLimitExample | backend/app/core/security_utils.py:130-135 | a 1.5 MiB file under a 1 MiB ceiling is refused with "File size (1.50 MB) exceeds limit (1.00 MB)" |
| SecurityUtils.ValidateFileSize | backend/app/core/security_utils.py:121-141 | the ceiling is the given one, or the configured MAX_FILE_SIZE when none is given, and the file passes exactly when its readable size is at most it; an unreadable size is reported with the exception's text |
| SecurityUtils.SizeCeilingIsInclusive | backend/app/core/security_utils.py:130-137 | a file exactly at the ceiling passes, one byte more fails, an unreadable size fails |
| SecurityUtils.ValidateFile | backend/app/core/security_utils.py:165-192 | valid exactly when the path, extension and size checks all pass; the first failing check's verdict is returned; the MIME check plays no part |
| SecurityUtils.IsSafePath | backend/app/core/security_utils.py:195-204 | safe only when both paths resolve and the resolved root is no longer than the resolved path; a path that resolves to the root itself is safe |
| SecurityUtils.SiblingPassesPrefixTest | backend/app/core/security_utils.py:195-204 | the prefix test is not a directory test: "/a/bc" counts as inside "/a/b" |
| SecurityUtils.ChildPassesPrefixTest | backend/app/core/security_utils.py:195-204 | every path under the root, separator included, passes `is_safe_path` |
| SecurityUtils.CleanName | backend/app/core/security_utils.py:148-155 | the cleaned name has no separator or NUL, and does not begin or end with a dot or a space |
| SecurityUtils.SanitizeFilename | backend/app/core/security_utils.py:144-162 | as written: no separator or NUL; a cleaned name of at most 255 characters is returned as is, a longer one keeps 250 characters of its stem and its whole extension |
| SecurityUtils.NoCharsKept | backend/app/core/security_utils.py:158-160 | cutting the stem and re-attaching the extension adds no separator or NUL |
| SecurityUtils.SanitizeCanExceedLimit | backend/app/core/security_utils.py:158-160 | the length limit fails: "a." followed by 255 or more letters comes back longer than 255 characters |
| SecurityUtils.CleanKeepsPlainName | backend/app/core/security_utils.py:148-155 | a name without separators, NULs or edge dots and spaces is cleaned to itself |
| SecurityUtils.SanitizeFilenameBounded | backend/app/core/security_utils.py:157-160 | corrected: never longer than 255 characters, a short cleaned name unchanged, and a long one keeps its extension whole when it fits, after a prefix of the cleaned name |
| SecurityUtils.BoundedName | backend/app/core/security_utils.py:157-160 | the length bound on a cleaned name: at most 255 characters, no separator or NUL, short names unchanged, long ones end with their extension after a prefix of the name |
| SecurityUtils.CutStem | backend/app/core/security_utils.py:159-160 | the stem cut to the room left, then the whole extension: at most room plus the extension's length, ending with the extension, after a prefix of the name |
| Config.AnyContained | backend/app/core/config.py:61 | Python's `any(weak in v ...)`: true exactly when some listed string occurs in v |
| Config.ValidateSecretKey | backend/app/core/config.py:47-67 | outside production any key is accepted unchanged; in production a key is accepted exactly when it has at least 32 characters and contains none of the weak strings; a refused key gets "SECRET_KEY is too weak for production! Use: python -c 'import secrets; print(secrets.token_urlsafe(32))'" |
| Config.SecretSubstringAlwaysRejected | backend/app/core/config.py:54-61 | in production every key containing "secret" anywhere is refused, however long |
| Config.WeakKeysReduceToThree | backend/app/core/config.py:54-60 | the weak-key test is decided by "change-this", "secret" and "CHANGE-THIS" alone |
| Config.ValidateMaxFileSize | backend/app/core/config.py:69-77 | accepted unchanged exactly when between 1 KiB and 5 GiB inclusive |
| Config.ValidateScanDepth | backend/app/core/config.py:79-87 | accepted unchanged exactly when between 1 and 50 inclusive |
| Config.DefaultsAreAccepted | backend/app/core/config.py:31-33 | the default MAX_FILE_SIZE and SCAN_DEPTH pass their own validators |
| Config.ValidateRootPath | backend/app/core/config.py:89-145 | valid exactly when the path exists, is a readable directory, canonicalises and is not a system directory; a valid report has the canonical path and no error, an invalid one an error; each flag is set exactly when its step was reached; a readable path whose canonicalisation raises gets "Validation error: " and the exception's text |
| Config.ExistingFileIsNotARoot | backend/app/core/config.py:111-114 | an existing non-directory is reported existing, not readable, not valid, with "Path is not a directory" |
| Config.AllowedExtensionsList | backend/app/core/config.py:147-149 | one entry per comma-separated piece, entry k being piece k stripped of surrounding whitespace (so without a comma and without whitespace at either end) |
| Config.IsExtensionAllowed | backend/app/core/config.py:151-154 | allowed exactly when some comma-separated entry, stripped of surrounding whitespace, equals the lower-cased `splitext` extension |
| Config.UpperCaseEntryNeverMatches | backend/app/core/config.py:151-154 | an allow-list entry with an upper-case letter never equals a lower-cased extension, so it admits no file |
| BackgroundTasks.Clamp | backend/app/core/background_tasks.py:53 | the stored progress is within 0..100, equal to the request when it already is, 0 below and 100 above |
| BackgroundTasks.StepsKeepWellFormed | backend/app/core/background_tasks.py:22-188 | submission, the start of a run, its end, the monitor's check, a progress update and an abort request all keep a task well formed: progress in 0..100, a running task started with a heartbeat, a finished task ended |
| BackgroundTasks.HeartbeatChecked | backend/app/core/background_tasks.py:102-111 | the monitor changes a task exactly when it is RUNNING with a stale heartbeat, only ever from RUNNING to FAILED, and touches nothing but the status, error and end time |
| BackgroundTasks.Begun | backend/app/core/background_tasks.py:155-160 | a run takes the task to RUNNING with its start time and a fresh heartbeat, which the monitor then leaves alone; nothing else changes |
| BackgroundTasks.Ended | backend/app/core/background_tasks.py:171-188 | the end of a run is final and sets the end time; ABORTED exactly when the abort was requested, FAILED exactly when the function raised, otherwise COMPLETED with its value |
| BackgroundTasks.EndOverwritesTimeout | backend/app/core/background_tasks.py:102-111 | a task the monitor failed for a stale heartbeat still ends COMPLETED with its value when its function returns, keeping the timeout message as its error |
| BackgroundTasks.Stale | backend/app/core/background_tasks.py:271-275 | a pending or running task is never collected |
| BackgroundTasks.Cleaned | backend/app/core/background_tasks.py:266-281 | clean-up removes exactly the finished tasks completed before the cut-off and leaves every other task as it was |
| BackgroundTasks.RemovingStale | backend/app/core/background_tasks.py:271-278 | deleting exactly the collected ids gives the cleaned registry and keeps every running task |
| BackgroundTasks.BackgroundTask.constructor | backend/app/core/background_tasks.py:22-45 | a submitted task is PENDING, with no times, no result or error, progress 0 and no abort request |
| BackgroundTasks.BackgroundTask.UpdateHeartbeat | backend/app/core/background_tasks.py:47-49 | only the heartbeat changes, to the current time |
| BackgroundTasks.BackgroundTask.UpdateProgress | backend/app/core/background_tasks.py:51-54 | the progress becomes the clamped request and the heartbeat the current time; nothing else changes |
| BackgroundTasks.BackgroundTask.IsAlive | backend/app/core/background_tasks.py:56-62 | alive exactly when there is a heartbeat younger than the timeout |
| BackgroundTasks.BackgroundTaskManager.constructor | backend/app/core/background_tasks.py:74-85 | the registry starts empty |
| BackgroundTasks.BackgroundTaskManager.CheckOne | backend/app/core/background_tasks.py:106-111 | one task's state becomes the monitor's check of it |
| BackgroundTasks.BackgroundTaskManager.CheckHeartbeats | backend/app/core/background_tasks.py:102-111 | every registered task's state becomes the monitor's check of it, and the registry's ids and objects stay the same |
| BackgroundTasks.BackgroundTaskManager.SubmitTask | backend/app/core/background_tasks.py:113-153 | refused exactly when a task with that id is running, with the message and the registry unchanged; otherwise a fresh PENDING task is registered under the id, replacing any earlier one |
| BackgroundTasks.BackgroundTaskManager.BeginRun | backend/app/core/background_tasks.py:155-160 | the task goes RUNNING with its start time and a heartbeat |
| BackgroundTasks.BackgroundTaskManager.EndRun | backend/app/core/background_tasks.py:171-188 | the task ends ABORTED, COMPLETED with the value, or FAILED with the message, and always gets its end time and a heartbeat |
| BackgroundTasks.BackgroundTaskManager.GetTask | backend/app/core/background_tasks.py:190-193 | the task registered under the id, and none exactly when the id is not registered |
| BackgroundTasks.BackgroundTaskManager.AbortTask | backend/app/core/background_tasks.py:195-202 | the request is taken exactly when the id names a running task; only that task's abort flag changes |
| BackgroundTasks.BackgroundTaskManager.ActiveTasks | backend/app/core/background_tasks.py:217-223 | exactly the registered tasks that are running |
| BackgroundTasks.BackgroundTaskManager.StaleIds | backend/app/core/background_tasks.py:271-275 | exactly the ids of finished tasks completed before the cut-off |
| BackgroundTasks.BackgroundTaskManager.RemoveAll | backend/app/core/background_tasks.py:277-278 | the registry loses exactly the given ids |
| BackgroundTasks.BackgroundTaskManager.CleanupOldTasks | backend/app/core/background_tasks.py:266-281 | the tasks kept are exactly those that are not finished tasks completed more than the given hours ago, each unchanged |
| RateLimit.Recent | backend/app/core/rate_limit.py:38-41 | the kept times are all later than the cut-off, every later time of the list is kept, and nothing else |
| RateLimit.RecentTwice | backend/app/core/rate_limit.py:38-41 | filtering at a cut-off and then at a later one keeps what the later one alone keeps |
| RateLimit.RecentAppend | backend/app/core/rate_limit.py:38-50 | filtering a list with one more time appends that time exactly when it is after the cut-off |
| RateLimit.Admit | backend/app/core/rate_limit.py:18-53 | the decision keeps every other key, records the key; an admitted request is appended to the key's window and leaves fewer than the maximum remaining; a refused one leaves the window and reports 0 remaining |
| RateLimit.AdmitDecides | backend/app/core/rate_limit.py:18-53 | admitted exactly when fewer than the maximum requests remain in the window, and the allowance is the maximum less the requests kept |
| RateLimit.AdmitKeepsLimit | backend/app/core/rate_limit.py:43-50 | with one fixed limit, no key's list ever grows beyond it |
| RateLimit.AdmitKeepsWindow | backend/app/core/rate_limit.py:31-41 | with a positive window, every time kept for the key lies inside the window |
| RateLimit.Pruned | backend/app/core/rate_limit.py:55-78 | clean-up keeps only keys it had, and leaves no empty list and only times after the cut-off |
| RateLimit.PrunedShape | backend/app/core/rate_limit.py:55-78 | clean-up keeps every key that had a time after the cut-off |
| RateLimit.PrunedAdmitsAlike | backend/app/core/rate_limit.py:55-78 | clean-up is invisible: for any window of at most an hour, a later request gets the same answer, allowance and list as without it |
| RateLimit.RateLimiter.constructor | backend/app/core/rate_limit.py:14-16 | the table starts empty |
| RateLimit.RateLimiter.IsAllowed | backend/app/core/rate_limit.py:18-53 | the answer, the allowance and the new table are the decision's |
| RateLimit.RateLimiter.CleanupOldEntries | backend/app/core/rate_limit.py:55-78 | the table becomes its clean-up at an hour before now |
| RateLimit.ClientIp | backend/app/core/rate_limit.py:85-102 | a non-empty X-Forwarded-For gives the text before its first comma (the whole header when there is none), stripped of surrounding whitespace; otherwise a non-empty X-Real-IP as given; otherwise the connection's host, or "unknown" |
| RateLimit.SplitPieceWithin | backend/app/core/rate_limit.py:92 | every piece of a split is no longer than the string and made of its characters |
| RateLimit.LimitKey | backend/app/core/rate_limit.py:115 | with a prefix the key is the prefix, a colon and the address; without one it is the address |
| RateLimit.CheckRateLimit | backend/app/core/rate_limit.py:105-124 | the limiter's table becomes the decision's for the client's key, and a 429 carrying the window as Retry-After is raised exactly when the request is refused |
| Cache.Fetch | backend/app/core/cache.py:20-33 | a value is served only when the cache is on and the key holds an unexpired entry, and it is that entry's value |
| Cache.AfterFetch | backend/app/core/cache.py:20-33 | `get` only removes entries, and never another key's |
| Cache.Stored | backend/app/core/cache.py:35-41 | `set` while on stores the value with expiry now + ttl under the key; while off it changes nothing; other keys are kept |
| Cache.FetchServesFresh | backend/app/core/cache.py:20-33 | `get` serves a value exactly when the cache is on and holds an unexpired entry for the key; when off it changes nothing; it removes the key exactly when its entry has expired |
| Cache.SetThenFetch | backend/app/core/cache.py:35-41 | a value set while the cache is on is served for exactly `ttl` seconds, one set while it is off is never served, and every other key is served as before |
| Cache.WithoutPattern | backend/app/core/cache.py:48-52 | pattern invalidation only removes entries, and every entry kept is unchanged and its key does not contain the pattern |
| Cache.WithoutPatternExact | backend/app/core/cache.py:48-52 | pattern invalidation removes exactly the keys containing the pattern, and an empty pattern removes every key |
| Cache.SimpleCache.constructor | backend/app/core/cache.py:16-18 | the cache starts empty and on |
| Cache.SimpleCache.Get | backend/app/core/cache.py:20-33 | the answer and the new entries are those of `get`'s specification |
| Cache.SimpleCache.Set | backend/app/core/cache.py:35-41 | the entries become the stored ones; the switch is unchanged |
| Cache.SimpleCache.Invalidate | backend/app/core/cache.py:43-46 | only the given key goes |
| Cache.SimpleCache.InvalidatePattern | backend/app/core/cache.py:48-52 | the collect-then-delete loop leaves exactly the entries without the pattern |
| Cache.SimpleCache.Clear | backend/app/core/cache.py:54-56 | every entry goes; the switch is unchanged |
| Cache.SimpleCache.Enable | backend/app/core/cache.py:58-60 | the cache is on and its entries unchanged |
| Cache.SimpleCache.Disable | backend/app/core/cache.py:62-65 | the cache is off and empty |
| Cache.Cached | backend/app/core/cache.py:81-110 | a cached value that is not None is returned with the cache unchanged; otherwise the function's result is returned and stored for `ttl` seconds |
| Cache.NoneIsRecomputed | backend/app/core/cache.py:103-104 | a cached None is never served: the function runs again |
| Cache.InvalidateCache | backend/app/core/cache.py:115-127 | an empty pattern clears the cache, any other removes exactly the keys containing it |
| LockServiceModel.FirstInProgress | backend/app/services/lock_service.py:16-18 | `.first()` of the in-progress query: the index of an in-progress row (of the type, when given) with none before it, or -1 when there is none |
| LockServiceModel.Acquired | backend/app/services/lock_service.py:10-33 | an acquisition succeeds only when nothing is in progress and then appends one in-progress row of the type for the user; a refusal keeps the table |
| LockServiceModel.Released | backend/app/services/lock_service.py:35-47 | a release keeps the table's length, changes nothing when it fails, and only ever changes an in-progress row of the type, to completed |
| LockServiceModel.ForceReleasedAll | backend/app/services/lock_service.py:57-62 | the table keeps its length; afterwards no row is in progress, each row differs from before at most in its status, and a row that was not in progress is unchanged |
| LockServiceModel.AcquireExcludes | backend/app/services/lock_service.py:10-33 | acquisition succeeds exactly when no row of any type is in progress, and at most one row is ever in progress |
| LockServiceModel.ReleaseOnlyItsType | backend/app/services/lock_service.py:35-47 | release succeeds exactly when a row of the type is in progress, never touches another type's row, and keeps at most one row in progress |
| LockServiceModel.ForceReleaseFrees | backend/app/services/lock_service.py:55-65 | after a forced release nothing is in progress and the next acquisition succeeds |
| LockServiceModel.LockService.constructor | backend/app/services/lock_service.py:7-8 | the service works on the given table |
| LockServiceModel.LockService.AcquireLock | backend/app/services/lock_service.py:10-33 | the answer and new table are those of the acquisition |
| LockServiceModel.LockService.ReleaseLock | backend/app/services/lock_service.py:35-47 | the answer and new table are those of the release |
| LockServiceModel.LockService.CheckLockStatus | backend/app/services/lock_service.py:49-53 | a row is returned exactly when one is in progress, and it is an in-progress row of the table |
| LockServiceModel.LockService.ForceReleaseLock | backend/app/services/lock_service.py:55-65 | always succeeds, and every in-progress row becomes force-released |
| BackupServiceModel.InsertNewestSorts | backend/app/services/backup_service.py:145-147 | inserting a row into a newest-first list keeps it newest first and adds exactly that row |
| BackupServiceModel.HeadIsNewest | backend/app/services/backup_service.py:145-147 | the head of a newest-first list is at least as new as the rest and as an older inserted row |
| BackupServiceModel.ConsNewestFirst | backend/app/services/backup_service.py:145-147 | a row at least as new as every row of a newest-first list can go in front of it |
| BackupServiceModel.NewestFirst | backend/app/services/backup_service.py:145-147 | `order_by(created_at.desc())`: a newest-first permutation of the table |
| BackupServiceModel.SliceStart | backend/app/services/backup_service.py:153 | where Python's `xs[k:]` starts: k clipped to the length, a negative k counted from the end |
| BackupServiceModel.WithoutMembers | backend/app/services/backup_service.py:161 | the rows kept are exactly those whose id is not deleted |
| BackupServiceModel.DeleteStep | backend/app/services/backup_service.py:156-162 | one pass of the deletion loop extends the rows and files already deleted by the next listed backup's |
| BackupServiceModel.SnocIdsPaths | backend/app/services/backup_service.py:156-162 | the ids and paths of a list with one more backup gain exactly its id and path |
| BackupServiceModel.WithoutNothing | backend/app/services/backup_service.py:156-162 | deleting no ids keeps the table |
| BackupServiceModel.WithoutTwice | backend/app/services/backup_service.py:156-162 | deleting two sets of ids one after the other deletes their union |
| BackupServiceModel.Retired | backend/app/services/backup_service.py:143-154 | nothing is deleted while there are at most `MAX_BACKUPS_TO_KEEP` backups; beyond that, with a non-negative limit, exactly the surplus is deleted, and only existing backups |
| BackupServiceModel.RetentionKeepsNewest | backend/app/services/backup_service.py:143-167 | every backup kept is at least as new as every backup deleted |
| BackupServiceModel.BackupFilename | backend/app/services/backup_service.py:30-31 | the file name is "backup_", the timestamp, ".sql" |
| BackupServiceModel.AcquireThenRelease | backend/app/services/backup_service.py:25-71 | taking the 'backup' lock on a free table and releasing it leaves exactly one more row, completed, and nothing in progress |
| BackupServiceModel.FindBackup | backend/app/services/backup_service.py:114-118 | the row found has the id; none is found only when no row has it |
| BackupServiceModel.Backup | backend/app/services/backup_service.py:28-68 | a successful backup is a completed manual backup by the user, named after the timestamp and stored in the backup directory; a failed dump raises "Backup creation failed" and changes nothing; any failure leaves the table as it was |
| BackupServiceModel.NewBackupKept | backend/app/services/backup_service.py:57-62 | with at least one backup kept, a new backup newer than every other survives its own clean-up |
| BackupServiceModel.NewestAtFront | backend/app/services/backup_service.py:145-147 | a row strictly newer than every other row is listed first, once |
| BackupServiceModel.SuffixOmits | backend/app/services/backup_service.py:153 | a row absent from a list's tail is absent from every later suffix |
| BackupServiceModel.OnlyAtFront | backend/app/services/backup_service.py:145-147 | a row listed first and only once is not in the tail |
| BackupServiceModel.BackupService.constructor | backend/app/services/backup_service.py:13-15 | the service works on the given table, disk and lock |
| BackupServiceModel.BackupService.CreateBackup | backend/app/services/backup_service.py:20-71 | while any operation holds the lock: refused, with the table, disk and lock rows unchanged; otherwise the 'backup' lock is taken and released again (one more completed row, nothing in progress) and the table, disk and answer are the backup's |
| BackupServiceModel.BackupService.BackupUnderLock | backend/app/services/backup_service.py:28-68 | the table, disk and answer are those the backup specification gives |
| BackupServiceModel.BackupService.CleanupOldBackups | backend/app/services/backup_service.py:143-167 | exactly the retired backups lose their row and file, and the count is their number |
| BackupServiceModel.BackupService.DeleteEach | backend/app/services/backup_service.py:156-162 | every listed backup loses its row and file, and each is counted |
| BackupServiceModel.BackupService.ListBackups | backend/app/services/backup_service.py:106-112 | a page of existing backups, newest first, of exactly `min(limit, rows after offset)` entries (none past the end); the first page with a limit covering the table lists every backup |
| BackupServiceModel.BackupService.PagesJoin | backend/app/services/backup_service.py:106-112 | `offset`/`limit` paging loses and repeats nothing: the page after the first `a` rows continues the first page |
| BackupServiceModel.BackupService.GetBackupById | backend/app/services/backup_service.py:114-118 | the row found has the id; none only when no row has it |
| BackupServiceModel.BackupService.DeleteBackup | backend/app/services/backup_service.py:120-141 | succeeds exactly when the id exists, and then removes that row and its file; an unknown id changes nothing |
| RestoreServiceModel.PgRestoreSucceeded | backend/app/services/restore_service.py:76-88 | only a finished run can succeed, and a run whose standard error is too short to hold FATAL or ERROR always succeeds |
| RestoreServiceModel.ExitCodeIgnored | backend/app/services/restore_service.py:76-88 | the exit code never decides: the same standard error gives the same outcome, and FATAL or ERROR anywhere in it fails the run |
| RestoreServiceModel.Restored | backend/app/services/restore_service.py:23-49 | a restore never returns False, succeeds only when pg_restore succeeded and the integrity check passed, and an unknown id is "Backup not found" |
| RestoreServiceModel.RestoreSucceedsExactly | backend/app/services/restore_service.py:23-49 | a restore returns True exactly when the backup exists, its file is on disk, pg_restore succeeded and the integrity check passed; an unknown id or a missing file is reported whatever pg_restore would have done |
| RestoreServiceModel.RestoreService.constructor | backend/app/services/restore_service.py:10-12 | the service reads the given table and disk and shares the given lock |
| RestoreServiceModel.RestoreService.RestoreBackup | backend/app/services/restore_service.py:14-52 | while any operation holds the lock: refused, lock rows unchanged; otherwise the answer is the restore's, the 'restore' lock is taken and released (one more completed row, nothing in progress) |
| RestoreServiceModel.RestoreService.RestoreUnderLock | backend/app/services/restore_service.py:23-49 | the answer is the one the restore specification gives |
| AuthorizationService.FindEnrollment | backend/app/services/authorization_service.py:199-202 | `.first()` on the pair: the first matching row's position, -1 exactly when the pair is not enrolled |
| AuthorizationService.FindFile | backend/app/services/authorization_service.py:55 | the file found has the id; none only when no file has it |
| AuthorizationService.CourseInCategory | backend/app/services/authorization_service.py:74-79 | true exactly when a course row with the id lies in the category |
| AuthorizationService.EnrolledInCategory | backend/app/services/authorization_service.py:74-79 | the join: true exactly when some enrollment of the user is for a course of the category |
| AuthorizationService.EnrolledCourseIds | backend/app/services/authorization_service.py:96-100 | an id is listed exactly when the user is enrolled in that course |
| AuthorizationService.CourseIds | backend/app/services/authorization_service.py:92-93 | one id per course row, in order |
| AuthorizationService.CourseIdsMembers | backend/app/services/authorization_service.py:92-93 | an id is listed exactly when some course row has it |
| AuthorizationService.VisibleCourses | backend/app/services/authorization_service.py:135-153 | a course is visible exactly when the user is an administrator or enrolled in it, and it lies in the category when a non-zero category id is given |
| AuthorizationService.CourseOrderIsPreorder | backend/app/services/authorization_service.py:137 | ordering courses by name is a total preorder when the name order is |
| AuthorizationService.EnrollUnenrollRoundTrip | backend/app/services/authorization_service.py:155-209 | enrolling a pair not yet enrolled grants access and keeps pairs unique, and unenrolling it gives back the table as it was |
| AuthorizationService.AppendedIsOnlyMatch | backend/app/services/authorization_service.py:186 | no row before an appended enrollment has its pair |
| AuthorizationService.RemoveAt | backend/app/services/authorization_service.py:205 | positions in a table with one row taken out shift by one after it |
| AuthorizationService.UnenrollRevokes | backend/app/services/authorization_service.py:192-209 | with unique pairs, unenrolling removes the user's only enrollment in the course and nothing else, and keeps pairs unique |
| AuthorizationService.RemovedStaysUnique | backend/app/services/authorization_service.py:205 | taking a row out keeps the pairs unique and its pair absent |
| AuthorizationService.UnenrollKeepsOthers | backend/app/services/authorization_service.py:205 | taking a row out keeps every row of another pair and adds none |
| AuthorizationService.AuthorizationService.constructor | backend/app/services/authorization_service.py:21-22 | the service works on the given tables |
| AuthorizationService.AuthorizationService.CanAccessCourse | backend/app/services/authorization_service.py:24-41 | access exactly for an administrator or an enrollment of the pair |
| AuthorizationService.AuthorizationService.CanAccessFile | backend/app/services/authorization_service.py:43-60 | an administrator always; otherwise never for an unknown file, and only with access to the course of a file with the id |
| AuthorizationService.AuthorizationService.CanAccessCategory | backend/app/services/authorization_service.py:62-81 | access exactly for an administrator or an enrollment in some course of the category |
| AuthorizationService.AuthorizationService.GetEnrolledCourseIds | backend/app/services/authorization_service.py:83-100 | every course id for an administrator, else exactly the user's enrolled course ids |
| AuthorizationService.AuthorizationService.GetAccessibleCourses | backend/app/services/authorization_service.py:125-153 | a permutation of the visible courses: every course the user may see in the category, and no other |
| AuthorizationService.AuthorizationService.EnrollUser | backend/app/services/authorization_service.py:155-190 | "already enrolled" and no change for an enrolled pair; otherwise exactly one new row for the pair under the next id |
| AuthorizationService.AuthorizationService.UnenrollUser | backend/app/services/authorization_service.py:192-209 | True exactly when the pair was enrolled, and then its first row goes; otherwise nothing changes |
| AuthorizationService.FileAccessFollowsCourse | backend/app/services/authorization_service.py:50-60 | for a non-administrator and unique file ids, a file's access is its course's access |
| AuthorizationService.AccessibleCoursesByName | backend/app/services/authorization_service.py:137-148 | the accessible courses come back ordered by name |
| NotificationService.NotificationIcon | backend/app/services/notification_service.py:280-289 | one of the four type icons, and the default icon for any other type |
| NotificationService.Recipients | backend/app/services/notification_service.py:244-255 | a course announcement (truthy course id) goes exactly to the users enrolled in that course; any other goes exactly to every user |
| NotificationService.CourseMembers | backend/app/services/notification_service.py:247-250 | a user is listed exactly when enrolled in the course |
| NotificationService.UserIds | backend/app/services/notification_service.py:254-255 | a user id is listed exactly when some user row has it |
| NotificationService.Notified | backend/app/services/notification_service.py:257-272 | the loop only appends rows and only moves the id counter forward |
| NotificationService.NotifiedOnce | backend/app/services/notification_service.py:257-272 | every recipient ends up with the notification, no (user, announcement) pair is ever duplicated, and only unread rows for this announcement and these recipients are added |
| NotificationService.Shown | backend/app/services/notification_service.py:79-96 | a system-wide announcement without expiry is always shown; an expired one never; a course announcement only to users enrolled in the course |
| NotificationService.Matching | backend/app/services/notification_service.py:68-97 | a row is kept exactly when it is the user's, its announcement exists, is system-wide or in an enrolled course and unexpired, and it is unread when only unread ones are asked for |
| NotificationService.PriorityOrderIsPreorder | backend/app/services/notification_service.py:100-102 | ordering by priority, then creation time, both descending, is a total preorder |
| NotificationService.Ranked | backend/app/services/notification_service.py:100-103 | `ORDER BY priority DESC, created_at DESC LIMIT n`: exactly `min(limit, rows)` entries, each taken no more often than the input has it (all of them when the limit does not cut), in priority-then-age order, and every row left out comes after every row kept |
| NotificationService.Views | backend/app/services/notification_service.py:107-123 | one view per ranked row, in order, each built from that row |
| NotificationService.ListingIsTop | backend/app/services/notification_service.py:100-105 | the listing shows every matching row when the limit does not cut it; a matching row it leaves out has no higher priority than any listed entry and is no newer than listed entries of equal priority |
| NotificationService.AllRead | backend/app/services/notification_service.py:168-176 | the table keeps its length and every row its id, owner and announcement; every row of the user is read, those that were unread with the time now, and every other row is unchanged |
| NotificationService.UnreadCount | backend/app/services/notification_service.py:168-172 | no more than the rows, and zero exactly when every row of the user is read |
| NotificationService.AllReadClears | backend/app/services/notification_service.py:166-179 | after marking all read the user has nothing unread |
| NotificationService.FindOwned | backend/app/services/notification_service.py:151-156 | the position of a row with the id that belongs to the user, -1 exactly when there is none |
| NotificationService.NotificationService.constructor | backend/app/services/notification_service.py:15-17 | the service works on the given tables |
| NotificationService.NotificationService.CreateAnnouncement | backend/app/services/notification_service.py:19-52 | the announcement is stored under the next id, then its recipients are notified; a failed notification commit rolls back only the notifications |
| NotificationService.NotificationService.CreateUserNotifications | backend/app/services/notification_service.py:240-278 | on a successful commit the rows are those the notification loop gives; a failed commit leaves the table as it was |
| NotificationService.NotificationService.GetUserNotifications | backend/app/services/notification_service.py:54-123 | as many entries as the limit allows of the matching rows; all of them when the limit does not cut, and otherwise the ones left out rank no higher (priority, then creation time) than any listed |
| NotificationService.NotificationService.GetUnreadCount | backend/app/services/notification_service.py:125-147 | never more than the rows of the table |
| NotificationService.NotificationService.MarkAsRead | backend/app/services/notification_service.py:149-164 | True exactly when the user owns a notification with the id, and then only that row is marked read at now; otherwise nothing changes |
| NotificationService.NotificationService.MarkAllAsRead | backend/app/services/notification_service.py:166-179 | every unread row of the user is marked read, and the count is how many were unread |
| NotificationService.NotificationService.DeleteNotification | backend/app/services/notification_service.py:181-195 | True exactly when the user owns a notification with the id, and then only that row goes; otherwise nothing changes |
| NotificationService.ListingShowsOnlyVisible | backend/app/services/notification_service.py:54-123 | every listed entry is the user's own notification of a shown announcement (unread when asked), and the list runs from highest priority down, newest first within a priority |
| NotificationService.UnreadCountMatchesListing | backend/app/services/notification_service.py:125-147 | the unread count is the length of the unread listing when the limit does not cut it, and zero once everything is read |
| NotificationService.NothingUnreadMatches | backend/app/services/notification_service.py:88-89 | with nothing unread, the unread listing is empty |
| SearchService.SearchFileType | backend/app/services/search_service.py:195-229 | "unknown" exactly when the name has no dot; otherwise a type from the table or "file" |
| SearchService.SearchFileTypeAfterLastDot | backend/app/services/search_service.py:200-229 | the type is the table's entry for the lower-cased text after the last dot, whatever precedes it, and "file" when it is not listed |
| SearchService.SearchFileIcon | backend/app/services/search_service.py:231-249 | total: an icon of the table, the generic one exactly for the types "file" and "unknown" |
| SearchService.DispatchOf | backend/app/services/search_service.py:155-162 | "courses" searches courses, "files" searches all files, each of the eight listed types searches files of that type, and anything else searches nothing |
| SearchService.CourseCandidates | backend/app/services/search_service.py:72-76 | a course is a candidate exactly when its id is accessible and its lower-cased name matches the `LIKE` pattern `%query%` built from the lower-cased query |
| SearchService.Like | backend/app/services/search_service.py:62 | PostgreSQL `LIKE`: a pattern without `%` matches no text longer than itself, and one without `%` or `\` only texts of its own length |
| SearchService.LikeItself | backend/app/services/search_service.py:62 | a pattern without `\` matches its own text, wildcards included |
| SearchService.LikeStart | backend/app/services/search_service.py:62 | a pattern without `\` followed by `%` matches every text that starts with it |
| SearchService.LikeContains | backend/app/services/search_service.py:62-75 | `%q%` for a pattern `q` without `\` matches every text that contains `q` |
| SearchService.LikeEndsWith | backend/app/services/search_service.py:125 | `%q` for a pattern `q` without `\` matches every text ending with `q` |
| SearchService.Matches | backend/app/services/search_service.py:62-75 | wildcards only widen the search: a query without `\` finds every name that contains it, ignoring ASCII case |
| SearchService.LikeAnything | backend/app/services/search_service.py:62 | the pattern `%` matches every text |
| SearchService.LikePrefix | backend/app/services/search_service.py:62 | a query with no `%`, `_` or `\` followed by `%` matches exactly the texts it opens |
| SearchService.LikeIsContains | backend/app/services/search_service.py:62-75 | `%query%` for a query with no `%`, `_` or `\` matches exactly the texts containing the query |
| SearchService.PlainQueryMatches | backend/app/services/search_service.py:62-75 | a query with no `%`, `_` or `\` finds exactly the names that contain it, ignoring ASCII case |
| SearchService.WildcardQueries | backend/app/services/search_service.py:62-75 | the query is not escaped: "_" finds every non-empty name, and "%" every name |
| SearchService.LikeExact | backend/app/services/search_service.py:125 | a pattern with no `%`, `_` or `\` matches only itself |
| SearchService.LikeSuffix | backend/app/services/search_service.py:125 | `%` followed by a pattern with no `%`, `_` or `\` matches exactly the texts it ends |
| SearchService.TypeFilter | backend/app/services/search_service.py:123-126 | a file type without `\` keeps every name ending, ignoring ASCII case, in a dot and that type |
| SearchService.PlainTypeFilter | backend/app/services/search_service.py:123-126 | a non-empty file type with no `%`, `_` or `\` keeps exactly the names whose lower-cased form ends in a dot and the lower-cased type |
| SearchService.FileCandidates | backend/app/services/search_service.py:111-126 | a file is a candidate exactly when its course is accessible, it is not a directory, its lower-cased name or path matches `%query%`, and, for a non-empty type, its lower-cased name matches `%.type` |
| SearchService.FileOrderIsPreorder | backend/app/services/search_service.py:128 | ordering files by name is a total preorder when the name order is |
| SearchService.CourseHitsOf | backend/app/services/search_service.py:79-88 | hit k is the hit of ranked course k |
| SearchService.FileHitsOf | backend/app/services/search_service.py:130-142 | hit k is the hit of ranked file k |
| SearchService.SearchService.constructor | backend/app/services/search_service.py:17-19 | the service works on the given authorization tables and search log |
| SearchService.SearchService.AccessibleIds | backend/app/services/search_service.py:65-66 | an id is listed exactly when a course with it is accessible to the user |
| SearchService.SearchService.SearchCourses | backend/app/services/search_service.py:52-88 | nothing without an accessible course; otherwise exactly `min(limit, candidates)` hits, each of an accessible course whose name matches |
| SearchService.SearchService.SearchFiles | backend/app/services/search_service.py:90-142 | nothing without an accessible course; otherwise exactly `min(limit, candidates)` hits, each of a non-directory file of an accessible course whose name or path matches and which passes the type filter |
| SearchService.SearchService.SearchAll | backend/app/services/search_service.py:21-50 | both searches with the same limit, the total is the sum of their lengths, and exactly one 'all' log row is added |
| SearchService.SearchService.SearchByType | backend/app/services/search_service.py:144-167 | the results are those of the dispatched search, or none, and the search is logged with its type and result count in every case |
| SearchService.SearchService.LogSearch | backend/app/services/search_service.py:251-264 | exactly one log row is appended |
| SearchService.SearchService.CourseHitsByName | backend/app/services/search_service.py:72-88 | under a total name order, course hits come by name, a matching course left out by the limit comes after every hit, and with no cut every matching course is a hit |
| SearchService.CourseHitsRanked | backend/app/services/search_service.py:77-88 | the hits of the first `limit` candidates by name are in name order, leave out only candidates that come after every hit, and cover all candidates when the limit does not cut |
| SearchService.SearchService.FileHitsByName | backend/app/services/search_service.py:111-142 | under a total name order, file hits come by name, a matching file left out by the limit comes after every hit, and with no cut every matching file is a hit |
| SearchService.FileHitsRanked | backend/app/services/search_service.py:128-142 | the hits of the first `limit` candidate files by name are in name order, leave out only files that come after every hit, and cover all candidates when the limit does not cut |
| UsersEndpoint.FindUser | backend/app/api/endpoints/users.py:112 | the first position holding the id, or -1 exactly when no user has it |
| UsersEndpoint.FindCourse | backend/app/api/endpoints/users.py:236 | a course with the id from the table, or none exactly when no course has it |
| UsersEndpoint.Updated | backend/app/api/endpoints/users.py:126-152 | the id is kept, the username and email change only when a truthy value is given, the password hash only when a password is given, and the administrator flag only when one is given |
| UsersEndpoint.ReplaceKeepsUnique | backend/app/api/endpoints/users.py:126-154 | an update that keeps the id and takes only a free username and email keeps ids, usernames and emails unique |
| UsersEndpoint.RemoveKeepsUnique | backend/app/api/endpoints/users.py:182-183 | deleting a user removes exactly the users with that id and keeps the table unique |
| UsersEndpoint.WithoutUser | backend/app/models/enrollment.py:14 | an enrollment remains exactly when it was there and belongs to another user |
| UsersEndpoint.WithoutUserKeepsPairsUnique | backend/app/models/enrollment.py:23-25 | removing a user's enrollments keeps one row per user and course |
| UsersEndpoint.DeleteOutcomeAsWritten | backend/app/api/endpoints/users.py:168-183 | as written: 404 and 400 as before, and past them the user is deleted exactly when no enrollment and no row of another table refers to them, any such row ending in a server error at the commit |
| UsersEndpoint.EnrollOutcomeAsWritten | backend/app/api/endpoints/users.py:216-270 | as written: the same 404, 404 and 400 refusals with nothing stored, and every request that passes them stores the student enrollment under the next id and still answers a server error |
| UsersEndpoint.EnrollmentStoredThenRefusedAsWritten | backend/app/api/endpoints/users.py:261-270 | enrolling student 2 in course 7 stores the enrollment and answers 500, and the retry answers 400 "User already enrolled in this course" |
| UsersEndpoint.EnrolledStudentNotDeletedAsWritten | backend/app/api/endpoints/users.py:182-183 | an enrolled student, deleted by another administrator, passes both guards and still ends in a server error as written |
| UsersEndpoint.CreateOutcomeAsWritten | backend/app/api/endpoints/users.py:70-97 | as written: the same two refusals, and every request that passes them ends in a server error, so no user is created |
| UsersEndpoint.FirstUserNotCreatedAsWritten | backend/app/api/endpoints/users.py:89-94 | the first user of an empty table passes both guards and is not created as written |
| UsersEndpoint.UpdatedAsWritten | backend/app/api/endpoints/users.py:150-152 | as written: the stored administrator flag never changes, the other fields change as in the corrected update |
| UsersEndpoint.PromotionLostAsWritten | backend/app/api/endpoints/users.py:150-152 | promoting a student sets the flag in the corrected update and leaves it unset as written |
| UsersEndpoint.EmailLessUserBreaksDeclaredTable | backend/app/models/user.py:11 | a user without an email cannot be a row of the table as declared |
| UsersEndpoint.UsersEndpoint.constructor | backend/app/api/endpoints/users.py:62-185 | the endpoint starts on a unique user table whose ids are below the next id |
| UsersEndpoint.UsersEndpoint.CreateUser | backend/app/api/endpoints/users.py:62-100 | a taken username is refused first, then a given email already taken; otherwise the new user gets the next id, the given fields and administrator rights only when asked for, and the table stays unique; this is the intended behaviour, and as written no user is created (Findings) |
| UsersEndpoint.UsersEndpoint.UpdateUser | backend/app/api/endpoints/users.py:103-157 | an unknown id is 404, an administrator clearing their own flag is refused, a changed username or email must be free, and exactly when every guard passes the user is replaced by the updated record; an administrator never loses their own rights; the flag is stored as intended, where as written it never changes (Findings) |
| UsersEndpoint.UsersEndpoint.DeleteUser | backend/app/api/endpoints/users.py:160-185 | an unknown id is 404, deleting oneself is 400, a user referred to by a row whose foreign key has no delete action is a server error with nothing changed, and otherwise exactly the user with that id is gone together with exactly their enrollments, the other enrollments kept and still one row per user and course |
| UsersEndpoint.UsersEndpoint.EnrollUserInCourse | backend/app/api/endpoints/users.py:216-270 | unknown user, then unknown course, is 404, an existing enrollment is 400, and exactly otherwise a student enrollment with the next id is added, returned, and the user is enrolled |
| UsersEndpoint.UsersEndpoint.UnenrollUserFromCourse | backend/app/api/endpoints/users.py:273-296 | succeeds exactly when the enrollment exists, 404 otherwise, and the enrollments afterwards are the old ones without it |
| ProgressEndpoint.FindProgress | backend/app/api/endpoints/progress.py:42-45 | the first row for the user and file, or -1 exactly when there is none |
| ProgressEndpoint.FindLastViewed | backend/app/api/endpoints/progress.py:108-110 | the first last-viewed row of the user, or -1 exactly when there is none |
| ProgressEndpoint.ProgressOf | backend/app/api/endpoints/progress.py:24-26 | exactly the rows of the user |
| ProgressEndpoint.ProgressEndpoint.constructor | backend/app/api/endpoints/progress.py:13-152 | the endpoint starts on tables with one progress row per user and file and one last-viewed row per user |
| ProgressEndpoint.ProgressEndpoint.GetUserProgress | backend/app/api/endpoints/progress.py:13-27 | 403 exactly for a caller who is neither the user nor an administrator, otherwise exactly the user's rows |
| ProgressEndpoint.ProgressEndpoint.GetProgressForFile | backend/app/api/endpoints/progress.py:30-50 | 403 for a stranger, 404 when the user has no row for the file, and otherwise that row |
| ProgressEndpoint.ProgressEndpoint.UpdateProgress | backend/app/api/endpoints/progress.py:53-94 | 403 for a stranger; otherwise the row for the user and file is overwritten in place or appended, carries the given status and position, is stamped completed only for "completed", and is what a later lookup returns |
| ProgressEndpoint.ProgressEndpoint.GetLastViewed | backend/app/api/endpoints/progress.py:97-115 | 403 for a stranger, 404 when the user has no record, otherwise the user's record |
| ProgressEndpoint.ProgressEndpoint.SetLastViewed | backend/app/api/endpoints/progress.py:118-152 | 403 for a stranger; otherwise the user's single record is overwritten in place or appended with the given course, file and time, and is what a later lookup returns |
| ProgressEndpoint.FindProgressAfterUpdate | backend/app/api/endpoints/progress.py:70-81 | overwriting the found row keeps one row per user and file, and the lookup finds the same position |
| ProgressEndpoint.FindProgressAfterAppend | backend/app/api/endpoints/progress.py:82-94 | appending a row for an absent user and file keeps one row per key, and the lookup finds the new row |
| ProgressEndpoint.FindLastViewedAfterUpdate | backend/app/api/endpoints/progress.py:134-141 | overwriting the user's record keeps one record per user, and the lookup finds the same position |
| ProgressEndpoint.FindLastViewedAfterAppend | backend/app/api/endpoints/progress.py:142-152 | appending a record for a user without one keeps one record per user, and the lookup finds it |
| TreeStateService.NodeKeyInjective | frontend/src/app/core/services/tree-state.service.ts:46-48 | for node types without a dash, equal keys mean the same type and id |
| TreeStateService.NodeKeyInjectiveEqual | frontend/src/app/core/services/tree-state.service.ts:46-48 | the same fact read forwards: equal keys give equal types and ids |
| TreeStateService.TreeStateService.constructor | frontend/src/app/core/services/tree-state.service.ts:38-41 | a fresh service has nothing expanded, loading or selected, no refresh request and no pending path |
| TreeStateService.TreeStateService.IsExpanded | frontend/src/app/core/services/tree-state.service.ts:53-56 | true exactly when the node is remembered and marked expanded; an unknown node is collapsed |
| TreeStateService.TreeStateService.AreChildrenLoaded | frontend/src/app/core/services/tree-state.service.ts:61-64 | true exactly when the node is remembered with its children loaded |
| TreeStateService.TreeStateService.SetExpanded | frontend/src/app/core/services/tree-state.service.ts:69-90 | the node reads as asked afterwards, its loaded flag is kept, collapsing an unknown node records nothing, and every other node is unchanged |
| TreeStateService.TreeStateService.SetChildrenLoaded | frontend/src/app/core/services/tree-state.service.ts:95-108 | the node's children read as loaded, a node seen for the first time reads as expanded, a known node keeps its expansion, and no other node changes |
| TreeStateService.TreeStateService.IsLoading | frontend/src/app/core/services/tree-state.service.ts:113-116 | true exactly when the node's key is in the loading set |
| TreeStateService.TreeStateService.SetLoading | frontend/src/app/core/services/tree-state.service.ts:121-132 | the node's key is added or removed as asked and the rest of the loading set is kept |
| TreeStateService.TreeStateService.SelectNode | frontend/src/app/core/services/tree-state.service.ts:137-139 | the selection becomes the given node and the selected id follows it |
| TreeStateService.TreeStateService.SelectedNodeId | frontend/src/app/core/services/tree-state.service.ts:144-146 | the id of the selected node, or none exactly when nothing is selected |
| TreeStateService.TreeStateService.ClearExpansionState | frontend/src/app/core/services/tree-state.service.ts:151-154 | every node reads as collapsed and unloaded afterwards |
| TreeStateService.TreeStateService.SetNeedsRefresh | frontend/src/app/core/services/tree-state.service.ts:159-168 | the refresh flag becomes the given value and nothing else changes |
| TreeStateService.TreeStateService.ExpandedNodeKeys | frontend/src/app/core/services/tree-state.service.ts:173-178 | the key of a node is listed exactly when that node reads as expanded |
| TreeStateService.TreeStateService.ClearChildrenLoadedFlags | frontend/src/app/core/services/tree-state.service.ts:183-191 | every remembered node forgets its children while the remembered and expanded nodes stay the same |
| TreeStateService.TreeStateService.ExpandToNode | frontend/src/app/core/services/tree-state.service.ts:224-236 | the path is recorded as pending, the category is expanded, the course and folder are expanded only for truthy ids, no loaded flag is lost, and every other remembered node is left exactly as it was |
| TreeStateService.TreeStateService.ClearPendingExpansions | frontend/src/app/core/services/tree-state.service.ts:241-243 | no path is pending and nothing else changes |
| TreeStateService.OtherNodesUnaffected | frontend/src/app/core/services/tree-state.service.ts:69-108 | a change confined to one node's key leaves every other node of a dashless type as it was |
| SearchStateService.SearchStateService.constructor | frontend/src/app/core/services/search-state.service.ts:28-50 | the service starts with the closed search, the tree view and no selection |
| SearchStateService.SearchStateService.HasResults | frontend/src/app/core/services/search-state.service.ts:39 | true exactly when the count of results is positive |
| SearchStateService.SearchStateService.ResultsCount | frontend/src/app/core/services/search-state.service.ts:40 | the number of results, zero whenever no search is active |
| SearchStateService.SearchStateService.ActivateSearch | frontend/src/app/core/services/search-state.service.ts:55-63 | the query and results become the active search stamped with the clock and the results are shown |
| SearchStateService.SearchStateService.NavigateToItem | frontend/src/app/core/services/search-state.service.ts:68-72 | the item is remembered and the tree shown while the search is kept |
| SearchStateService.SearchStateService.ReturnToSearch | frontend/src/app/core/services/search-state.service.ts:77-81 | the results are shown again only while a search is active; otherwise the view stays |
| SearchStateService.SearchStateService.CloseSearch | frontend/src/app/core/services/search-state.service.ts:86-95 | the search and selection are forgotten, the tree is shown and there are no results |
| SearchStateService.NavigateAndReturn | frontend/src/app/core/services/search-state.service.ts:55-81 | activating a search, navigating to a result and returning shows the same search with that item selected |
| TreeView.NodeOf | frontend/src/app/features/client/components/tree-view.component.ts:160-168 | a folder becomes an expandable folder node without type or data; a file becomes a leaf carrying its type and its record |
| TreeView.IdsOfMembers | frontend/src/app/features/client/components/tree-view.component.ts:170 | the ids in the node map are exactly the ids the files carry |
| TreeView.BuildFileTree | frontend/src/app/features/client/components/tree-view.component.ts:155-193 | one node per file id with the last file winning, the roots are the parentless files in input order, and each node's children are the files naming it as parent in input order |
| TreeView.ChildrenMap | frontend/src/app/features/client/components/tree-view.component.ts:174-189 | one children list per known id, none longer than the file list |
| TreeView.ChildrenOf | frontend/src/app/features/client/components/tree-view.component.ts:180-184 | a node's children list is no longer than the files and is empty for an id not among them |
| TreeView.ChildrenMapSnoc | frontend/src/app/features/client/components/tree-view.component.ts:174-189 | one more file adds its id to its parent's children when the parent is present, and otherwise leaves the children unchanged |
| TreeView.LastWinsSnoc | frontend/src/app/features/client/components/tree-view.component.ts:160-171 | one more file makes its id map to its own node while every other id keeps the last file carrying it |
| TreeView.PrefixSnoc | frontend/src/app/features/client/components/tree-view.component.ts:174 | the files seen so far grow by the current one |
| TreeView.IdsOfSnoc | frontend/src/app/features/client/components/tree-view.component.ts:170 | one more file adds exactly its id |
| TreeView.Roots | frontend/src/app/features/client/components/tree-view.component.ts:177-188 | at most one root per file, and every file in order when no parent id is known |
| TreeView.RootsSnoc | frontend/src/app/features/client/components/tree-view.component.ts:177-188 | one more file is appended to the roots exactly when it has no parent among the files |
| TreeView.ChildrenSnoc | frontend/src/app/features/client/components/tree-view.component.ts:180-184 | one more file is appended to a node's children exactly when that node is its parent and present |
| TreeView.RootsAreParentless | frontend/src/app/features/client/components/tree-view.component.ts:177-188 | an id is a root exactly when some file with it has no parent among the files |
| TreeView.ChildrenHaveThatParent | frontend/src/app/features/client/components/tree-view.component.ts:180-184 | an id is a child of a node exactly when that node is present and some file with the id names it as parent |
| TreeView.RootPlacedOnce | frontend/src/app/features/client/components/tree-view.component.ts:174-190 | with distinct ids each file is a root once when its parent is absent and otherwise never |
| TreeView.ChildPlacedOnce | frontend/src/app/features/client/components/tree-view.component.ts:174-190 | with distinct ids each file is once among the children of its present parent and never among any other node's |
| TreeView.AbsentIdNotRoot | frontend/src/app/features/client/components/tree-view.component.ts:177-188 | an id no file carries is never a root |
| TreeView.AbsentIdNotChild | frontend/src/app/features/client/components/tree-view.component.ts:180-184 | an id no file carries is nobody's child |
| TreeView.ExpandableNode.constructor | frontend/src/app/features/client/components/tree-view.component.ts:118-123 | a new node has no children, nothing below them, and is not loading |
| TreeView.ExpandableNode.ExpandNode | frontend/src/app/features/client/components/tree-view.component.ts:101-110 | a load starts exactly for a category or course with no children that is not already loading, asks for its courses or its files, and marks it loading |
| TreeView.ExpandableNode.CoursesLoaded | frontend/src/app/features/client/components/tree-view.component.ts:112-135 | on success the courses become expandable course nodes in order; either way loading ends |
| TreeView.ExpandableNode.FilesLoaded | frontend/src/app/features/client/components/tree-view.component.ts:137-153 | on success the children are the built nodes of the roots in order, and the node is left holding the built nodes (last file winning per id) and the children lists of every node below it; on failure nothing but the loading flag changes, and either way loading ends |
| TreeView.RootsAreNodes | frontend/src/app/features/client/components/tree-view.component.ts:175-187 | every root id has a node |
| TreeView.RootNodeId | frontend/src/app/features/client/components/tree-view.component.ts:170-175 | the node kept for an id carries that id |
| TreeView.LastWithId | frontend/src/app/features/client/components/tree-view.component.ts:160-171 | an id in the map is carried by a last file after which no file carries it |
| FolderViewer.InFolder | frontend/src/app/features/client/components/folder-viewer.component.ts:292-294 | each file occurs as often as in the input when its parent is the folder, and not at all otherwise |
| FolderViewer.DirectoriesFirstIsPreorder | frontend/src/app/features/client/components/folder-viewer.component.ts:322-326 | directories first, then by name, is a total preorder whenever the name order is |
| FolderViewer.ListingIsExact | frontend/src/app/features/client/components/folder-viewer.component.ts:289-328 | the listing holds exactly the folder's files, none omitted and none repeated |
| FolderViewer.ListingIsOrdered | frontend/src/app/features/client/components/folder-viewer.component.ts:321-326 | in the listing no file precedes a directory, and within each group names ascend |
| FolderViewer.FolderViewerComponent.constructor | frontend/src/app/features/client/components/folder-viewer.component.ts:248-255 | the component starts with no folder, course, files or listing and not loading |
| FolderViewer.FolderViewerComponent.LoadFiles | frontend/src/app/features/client/components/folder-viewer.component.ts:270-287 | a request is made exactly when the course id is truthy, for that course, and loading starts |
| FolderViewer.FolderViewerComponent.NgOnInit | frontend/src/app/features/client/components/folder-viewer.component.ts:257-259 | the same as loading the files |
| FolderViewer.FolderViewerComponent.NgOnChanges | frontend/src/app/features/client/components/folder-viewer.component.ts:261-268 | the files are requested again exactly when the folder or course differs from the last seen and the course id is truthy; afterwards the last seen values are the inputs |
| FolderViewer.FolderViewerComponent.LoadFolderContents | frontend/src/app/features/client/components/folder-viewer.component.ts:289-329 | the listing becomes the sorted files of the current folder |
| FolderViewer.FolderViewerComponent.FilesLoaded | frontend/src/app/features/client/components/folder-viewer.component.ts:277-285 | on success the files are kept and the listing rebuilt; either way loading ends |
| FolderViewer.FolderViewerComponent.SetAllFiles | frontend/src/app/features/client/components/folder-viewer.component.ts:332-335 | the files are replaced and the listing rebuilt from them |
| FolderViewer.FolderViewerComponent.OnItemClick | frontend/src/app/features/client/components/folder-viewer.component.ts:337-349 | a directory opens as a folder of the current course and any other item is selected as a file |
| FolderViewer.OpenFolder | frontend/src/app/features/client/components/folder-viewer.component.ts:261-349 | clicking a directory and receiving the files lists exactly the files inside that directory |
| FrontendFileService.TypeOfExtension | frontend/src/app/core/services/file.service.ts:58-86 | an extension never names a folder |
| FrontendFileService.LastPiece | frontend/src/app/core/services/file.service.ts:56 | the text after the last dot, without a dot, ending the name, and preceded by a dot whenever it is shorter than the name |
| FrontendFileService.LastPieceIsLastSplit | frontend/src/app/core/services/file.service.ts:56 | it is the last piece of splitting the name at dots |
| FrontendFileService.GetFileType | frontend/src/app/core/services/file.service.ts:55-88 | a file name never yields the folder type |
| FrontendFileService.GetFileIcon | frontend/src/app/core/services/file.service.ts:90-109 | the folder type has the folder icon, and the generic icon belongs to the unknown type alone |
| FrontendFileService.DotlessNameIsExtension | frontend/src/app/core/services/file.service.ts:56 | a name without a dot is looked up whole |
| FrontendFileService.PdfExtensionsAgree | frontend/src/app/core/services/file.service.ts:59-60 | the PDF extension has the PDF type in the scanner too |
| FrontendFileService.VideoExtensionsAgree | frontend/src/app/core/services/file.service.ts:61-66 | each video extension has the video type in the scanner too |
| FrontendFileService.AudioExtensionsAgree | frontend/src/app/core/services/file.service.ts:67-71 | each audio extension has the audio type in the scanner too |
| FrontendFileService.ImageExtensionsAgree | frontend/src/app/core/services/file.service.ts:72-78 | each image extension has the image type in the scanner too |
| FrontendFileService.TextExtensionsAgree | frontend/src/app/core/services/file.service.ts:79-82 | each text extension has the text type in the scanner too |
| FrontendFileService.EpubExtensionsAgree | frontend/src/app/core/services/file.service.ts:83-84 | the EPUB extension has the EPUB type in the scanner too |
| FrontendFileService.TablesAgree | frontend/src/app/core/services/file.service.ts:58-86 | every extension the frontend recognises has the same type in the scanner's table under a leading dot |
| FrontendFileService.SuffixIsDotAndLastPiece | frontend/src/app/core/services/file.service.ts:56 | when the last dot is neither first nor last, the scanner's suffix is that dot and the last piece |
| FrontendFileService.AgreesWithScanner | frontend/src/app/core/services/file.service.ts:55-88 | for a name whose last dot is not its first character, the frontend and the scanner give the same type whenever the frontend recognises it |
| FrontendFileService.LeadingDotDisagrees | frontend/src/app/core/services/file.service.ts:55-88 | ".pdf" is a PDF to the frontend and unknown to the scanner |
| FrontendFileService.DotlessPdfIsPdf | frontend/src/app/core/services/file.service.ts:56-60 | the dotless name "pdf" is a PDF |
| FrontendConfig.FileExtension | frontend/src/app/core/services/config.service.ts:87-91 | empty exactly when the name has no dot, otherwise a dot followed by the lower-cased last piece, which holds no dot |
| FrontendConfig.SplitHasDot | frontend/src/app/core/services/config.service.ts:88-89 | splitting at dots gives two or more pieces exactly when there is a dot |
| FrontendConfig.JoinContainsParts | frontend/src/app/core/services/config.service.ts:121 | every piece occurs in the joined string |
| FrontendConfig.ConfigService.constructor | frontend/src/app/core/services/config.service.ts:36 | no configuration is known at first |
| FrontendConfig.ConfigService.LoadConfig | frontend/src/app/core/services/config.service.ts:41-45 | the fetched configuration becomes current |
| FrontendConfig.ConfigService.IsFileSizeAllowed | frontend/src/app/core/services/config.service.ts:67-71 | refused before the configuration is known, otherwise allowed exactly up to the maximum inclusive |
| FrontendConfig.ConfigService.IsExtensionAllowed | frontend/src/app/core/services/config.service.ts:76-82 | refused before the configuration is known, otherwise allowed exactly when the extension is listed; a dotted name needs a dotted entry and a dotless name an empty one |
| FrontendConfig.ConfigService.MaxFileSizeFormatted | frontend/src/app/core/services/config.service.ts:109-113 | "Unknown" before the configuration is known, otherwise the formatted maximum |
| FrontendConfig.ConfigService.AllowedExtensionsString | frontend/src/app/core/services/config.service.ts:118-122 | empty before the configuration is known, otherwise the allowed extensions in order joined by ", ", so every allowed extension occurs in the text |
| Ordering.TakeKeepsTop | backend/app/services/notification_service.py:100-103 | `LIMIT n` after `ORDER BY`: the kept rows are rows of the input, and a row left out comes after every row kept |
| Common.SplitExt | backend/app/core/security_utils.py:78 | `os.path.splitext`: the two parts rebuild the path, and a non-empty extension is one dot and no further dot or slash, preceded by a non-dot character of the last component |
| Common.PathSuffix | backend/app/services/scanner_service.py:259 | `Path.suffix`: empty, or a dot with at least one more character, no further dot or slash, ending the path |
| Common.Split | backend/app/core/config.py:149 | `str.split` on one character: at least one piece, and no piece holds the separator |
| Common.SplitJoin | backend/app/core/config.py:149 | `str.split` loses nothing: joining the pieces back with the separator gives the input |
| Common.IndexOf | backend/app/core/rate_limit.py:92 | the first occurrence of a character: it does not occur before the index, and occurs at it unless the index is the length |
| Common.SplitFirstPiece | backend/app/core/rate_limit.py:92 | the first piece of `str.split` is the text before the first separator |
| Common.Strip | backend/app/core/config.py:149 | `str.strip`: the slice of the input that starts after its leading stripped characters and is followed only by stripped characters; neither of its ends is a stripped character |
| Common.Lower | backend/app/services/scanner_service.py:259 | lower-casing keeps the length and maps each character on its own |

## Left out

- File system, database and processes: `os.walk`, `realpath`, `exists`, `getsize` and `os.access` are inputs (a listing, a probe, a normalisation function); SQLAlchemy sessions become in-memory tables, and every method is atomic.
- Concurrency: threads, signal handlers, the heartbeat monitor loop, `join` timeouts, `shutdown` and `wait_for_task` are not modelled; two processes racing for the scan lock or for `LockService`'s check-then-insert cannot be expressed in a sequential model.
- Time: `datetime.utcnow()`, `time.time()` and `Date.now()` are an integer parameter `now`; timestamps are integers.
- ReliableScanner.LockBusyMessage: how `str` writes the lock's `locked_at` is a parameter (`timeText`), since timestamps are integers here.
- Ids: one counter hands out ids for categories, courses and file nodes, where the database has one sequence per table; only freshness of ids matters to the properties.
- ReliableScanner: the security policy and the extension allow-list are fixed when the service is built, from the settings; the swap of the extension validator is modelled by the logging policy installed for one run and restored afterwards.
- ReliableScanner: `get_root_path`, `set_root_path`, `get_scan_history` and `get_scan_errors` are plain queries that are not modelled.
- Foreign calls: `pg_dump` and `pg_restore` are a success flag and an stderr string; `mimetypes.guess_type` is a parameter; the MD5 and JSON cache key of `cached` is not modelled, and callers pass the key.
- JWT, bcrypt and password hashing are not modelled; hashes are parameters.
- Floating-point formatting: `formatFileSize` is left out; `MaxFileSizeFormatted` takes the formatter as a parameter.
- SecurityUtils.Megabytes: exact only for byte counts below 2^53, where the quotient by 1024 * 1024 is an exact double; a larger count is first rounded by the division, which is not modelled.
- Name ordering: `localeCompare` and SQL `ORDER BY name` are an abstract total preorder on names given as a parameter.
- Search: `get_popular_searches` and `get_recent_searches` are aggregate reports that are not modelled.
- SearchService.Like: a pattern ending in a lone `\`, which PostgreSQL refuses with an error, is modelled as matching nothing; the search's own `%query%` never ends that way, only a file type ending in `\` can.
- NotificationService: `create_new_course_notification` and `create_new_content_notification` only build an announcement and call the modelled creation; they are not modelled.
- AuthorizationService: `get_accessible_categories` is not modelled.
- UsersEndpoint: `get_all_users`, `get_user` and `get_user_enrollments` are plain reads that are not modelled. The endpoints use the name `isAdmin` where the `User` table's column is `is_admin`; the corrected `CreateUser` and `UpdateUser` keep one administrator flag, and the as-written outcomes are under Findings. Reading `isAdmin` back into the `UserResponse` body, which the table does not provide either, is not modelled.
- DeleteUser: the rows of other tables that refer to the user are not held by the endpoint. Those whose foreign key has no delete action (`user_progress`, `last_viewed`, `refresh_tokens`, `scan_history.started_by_id`, `backups.created_by_id` and the two lock tables' `locked_by_id`) make the database refuse the delete even with the intended cascade; the parameter `restricted` says the user has such a row, and the delete then fails with nothing changed. The user's `search_logs`, `user_notifications` and `announcements` rows, which `ON DELETE CASCADE` removes, are held by other parts of the model and are not removed here.
- UsersEndpoint.DeleteOutcomeAsWritten: rows of other tables that refer to the user are summed up by the parameter `referencedElsewhere`; as written, any of them (a search ever run, a notification received, an announcement posted, a scan started, a refresh token, progress, a last-viewed file, a backup or a lock row) stops the delete just as an enrollment does.
- UsersEndpoint.UsersEndpoint.EnrollUserInCourse: returns the stored enrollment row where the source returns a dictionary with the course name and the enrollment time.
- BackupService: the `pg_dump` command line and the size of the backup file are not modelled; the backup directory is a set of file names, from which `delete_backup` removes the file.
- TreeView: node objects are identified by their ids, and parent-child links are a map from an id to the ids of its children, so object identity and the `BehaviorSubject` streams are not modelled. `onNodeClick`, `getNodeIcon` and `getNodeClass` are rendering helpers left out.
- FolderViewer: the in-place `sort` is modelled on values, as an insertion sort over the filtered list; `getIcon`, `getIconClass` and `getFileTypeLabel` are rendering helpers left out; the debug logging is left out.
- TreeStateService: the `sessionStorage` save and load are left out, so a fresh service starts empty.
- TreeStateService.ExpandedNodeKeys: gives the expanded keys as a set, because the order of a JavaScript `Map`'s entries is not modelled.
- FrontendFileService.TablesAgree: states one direction only, from the frontend's table to the scanner's; the scanner knows extensions the frontend calls unknown.
- FrontendFileService.AgreesWithScanner: holds only for names whose last dot is not the first character; `LeadingDotDisagrees` shows the names where the two differ.
- Common.Lower: folds ASCII letters only. Python's `str.lower` and JavaScript's `toLowerCase` fold every Unicode letter; for instance U+212A KELVIN SIGN becomes 'k', so a name ending in ".m\u212Av" passes the source's extension check and fails the model's.
- Common.Strip: strips the ASCII whitespace characters only (space, tab, line feed, vertical tab, form feed, carriage return), where Python's argument-less `str.strip` also strips the separators U+001C to U+001F and Unicode whitespace such as U+0085 and U+00A0.
- ScannerService.ScanRoot: the text after "Error during scan: " is the exception's own message, which the model does not produce; the model's failure message is that prefix alone.
- ScannerService.ScanCourse: models the intended clean-up, in which an unseen node is deleted even when `user_progress` or `last_viewed` rows refer to it; the code as written fails the scan instead (`ScanCourseAsWritten`, see Findings), and the `Catalog` methods follow the intended behaviour.
- Progress: at most one progress row per user and file holds only because requests are atomic here; the table has no unique constraint, and two concurrent first views could insert two rows.
- HTTP plumbing: the thin endpoints, the upload endpoint, middleware, logging, templates, dialogs and the file viewer are not part of this model.

## Findings

| source | as written | input that shows it | evidently intended | confidence | as-written member | corrected member |
|---|---|---|---|---|---|---|
| backend/app/core/security_utils.py:158-160 | a name over 255 characters keeps 250 characters of its stem and the whole extension, so a long extension leaves the result over 255 | "a." followed by 300 'b' characters (302 characters) comes back unchanged | the result is at most 255 characters | not executed | SecurityUtils.SanitizeCanExceedLimit | SecurityUtils.SanitizeFilenameBounded |
| backend/app/services/reliable_scanner_service.py:114-126, 192-194 | the `finally` releases the scan lock on every exit, including the exit after the lock was refused | a run started while another run holds the lock | a refused run leaves the other run's lock held | not executed | ReliableScanner.RefusedRunFreesHeldLock | ReliableScanner.RefusedRunKeepsHeldLock |
| backend/app/api/endpoints/users.py:182-183 | the user is deleted through the session, whose `enrollments` back-reference has no delete cascade, so each enrollment's NOT NULL `user_id` is set to NULL and the commit fails (the same happens for the user's search logs, notifications, announcements, scans, refresh tokens and progress rows) | deleting a student who has one enrollment, as another administrator | the user and their enrollments are removed, as the `ON DELETE CASCADE` of `enrollments.user_id` asks | not executed | UsersEndpoint.EnrolledStudentNotDeletedAsWritten | UsersEndpoint.UsersEndpoint.DeleteUser |
| backend/app/api/endpoints/users.py:261-270 | the enrollment is committed, then the response reads `enrollment.enrolled_at`, which the `Enrollment` model (whose time column is `created_at`) does not define, so the request ends in a server error with the row stored | enrolling student 2 in course 7, then retrying | the request answers with the new enrollment; a retry is not needed | not executed | UsersEndpoint.EnrollmentStoredThenRefusedAsWritten | UsersEndpoint.UsersEndpoint.EnrollUserInCourse |
| backend/app/api/endpoints/users.py:89-94 | the new row is built with the keyword `isAdmin`, which the `User` table (column `is_admin`) does not have, so the constructor raises | any request that passes the username and email checks, e.g. the first user of an empty table | the user is created, an administrator only when asked | not executed | UsersEndpoint.FirstUserNotCreatedAsWritten | UsersEndpoint.UsersEndpoint.CreateUser |
| backend/app/api/endpoints/users.py:150-152 | the new flag is written to a plain attribute `isAdmin`, not to the `is_admin` column, so it is never stored | an update with `isAdmin` true for a student | the stored administrator flag takes the given value | not executed | UsersEndpoint.PromotionLostAsWritten | UsersEndpoint.UsersEndpoint.UpdateUser |
| backend/app/models/user.py:11 | the `email` column is NOT NULL though the request schema and `create_user` treat the email as optional | a create request without an email | a user may have no email | not executed | UsersEndpoint.EmailLessUserBreaksDeclaredTable | UsersEndpoint.UsersEndpoint.CreateUser |
| backend/app/services/scanner_service.py:243-247 | an unseen node is deleted through the session, but `FileNode.progress` has no delete cascade, `user_progress.file_id` is NOT NULL and `last_viewed.file_id` has no `ondelete`, so the flush fails and the scan rolls back with "Error during scan: …" | a course whose stored file "notes.pdf" (id 5) was removed from disk after a student opened it, then a rescan | the vanished file's node is removed and counted, as for a file nobody opened | not executed | ScannerProofs.OpenedFileRemovedAsWritten | ScannerService.ScanCourse |
