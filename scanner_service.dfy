/** The scanner: it walks the root folder (categories, then courses, then
    each course's subtree) and reconciles the `file_nodes` table with what it
    finds. Each course is reconciled in two passes over the same walk (first
    directories, then files) followed by the deletion of every stored node of
    the course whose path was not seen.

    The reconciliation is specified by left folds over the walk (`DirPass`,
    `FilePass`, `ScanCourse`, `ScanCategories`), and the `Catalog` methods,
    which change the tables in place as the service does, are proved to
    produce exactly the folds' results. */
module ScannerService {
  import opened Common
  import opened FileNodeModel
  import SecurityUtils
  import Config

  /** Extension (lower-cased, with its dot) to the stored file type. */
  const FileTypeMap: map<string, string> := map[
    ".pdf" := "pdf",
    ".mp4" := "video", ".avi" := "video", ".mkv" := "video", ".mov" := "video", ".webm" := "video",
    ".mp3" := "audio", ".wav" := "audio", ".ogg" := "audio", ".m4a" := "audio",
    ".jpg" := "image", ".jpeg" := "image", ".png" := "image", ".gif" := "image", ".bmp" := "image", ".webp" := "image",
    ".txt" := "text", ".md" := "text", ".log" := "text",
    ".epub" := "epub"]

  const FolderType: string := "folder"
  const UnknownType: string := "unknown"

  /** The table lookup with "unknown" as the default. */
  function TypeOfExtension(ext: string): (t: string)
    ensures t != FolderType
    ensures ext == [] ==> t == UnknownType
    ensures ext in FileTypeMap ==> t == FileTypeMap[ext]
  {
    if ext in FileTypeMap then FileTypeMap[ext] else UnknownType
  }

  /** `_get_file_type`: the lower-cased `pathlib` suffix looked up in the
      table. A file never gets the folder type, and a name without a suffix
      is "unknown". */
  function FileTypeOf(fileName: string): (t: string)
    ensures t != FolderType
    ensures PathSuffix(fileName) == [] ==> t == UnknownType
  {
    var ext := Lower(PathSuffix(fileName));
    assert PathSuffix(fileName) == [] ==> ext == [];
    TypeOfExtension(ext)
  }

  /** A path the walk reports: never the empty path. */
  type EntryPath = p: Path | |p| > 0 witness [""]

  /** A file the walk reports, with its size, or None when reading the size
      fails. */
  datatype DiskFile = DiskFile(path: EntryPath, size: Option<nat>)

  /** One course's subtree as the walk reports it: the directories in the
      order visited (each after its parent) and the files. */
  datatype CourseTree = CourseTree(dirs: seq<EntryPath>, files: seq<DiskFile>)

  /** What a walk of `coursePath` yields: every entry lies below the course;
      each directory's parent is the course directory or a directory visited
      before it; each file's parent is the course directory or a visited
      directory; no path is reported twice. */
  predicate WalkOf(tree: CourseTree, coursePath: Path)
  {
    && (forall i :: 0 <= i < |tree.dirs| ==>
          IsBelow(tree.dirs[i], coursePath)
          && (ParentOf(tree.dirs[i]) == coursePath || ParentOf(tree.dirs[i]) in tree.dirs[..i]))
    && (forall i, j :: 0 <= i < j < |tree.dirs| ==> tree.dirs[i] != tree.dirs[j])
    && (forall i :: 0 <= i < |tree.files| ==>
          IsBelow(tree.files[i].path, coursePath)
          && (ParentOf(tree.files[i].path) == coursePath || ParentOf(tree.files[i].path) in tree.dirs)
          && tree.files[i].path !in tree.dirs)
    && (forall i, j :: 0 <= i < j < |tree.files| ==> tree.files[i].path != tree.files[j].path)
  }

  /** What the second pass consults for each file: the three checks (its
      path lies inside the course directory, its name has an allowed
      extension, its size, None when reading it fails, is within the limit)
      and the type a new node is stored with. The scanner calls the
      security validator and `_get_file_type`; `PolicyOf` builds them from
      the settings. */
  datatype Policy = Policy(
    safePath: (Path, Path) -> bool,
    extensionOk: string -> bool,
    sizeOk: Option<nat> -> bool,
    fileType: string -> string)

  /** The validator's checks under the given settings, with `realpath` as
      the file system's canonicalisation. */
  function PolicyOf(settings: Config.Settings, realpath: string -> Option<string>): (r: Policy)
    ensures forall p, root :: r.safePath(p, root) == SecurityUtils.IsSafePath(Render(p), Render(root), realpath)
    ensures forall name ::
      r.extensionOk(name) == SecurityUtils.ValidateExtension(name, Config.AllowedExtensionsList(settings.allowedExtensions)).Valid?
    ensures forall size, raised :: r.sizeOk(size) == SecurityUtils.CheckSize(OptionInt(size), settings.maxFileSize, raised).Valid?
    ensures forall name :: r.fileType(name) == FileTypeOf(name)
  {
    var allowed := Config.AllowedExtensionsList(settings.allowedExtensions);
    Policy(
      (p, root) => SecurityUtils.IsSafePath(Render(p), Render(root), realpath),
      name => SecurityUtils.ValidateExtension(name, allowed).Valid?,
      size => SecurityUtils.CheckSize(OptionInt(size), settings.maxFileSize, "").Valid?,
      FileTypeOf)
  }

  function OptionInt(size: Option<nat>): Option<int>
  {
    match size
    case None => None
    case Some(n) => Some(n)
  }

  /** The fixed inputs of one course reconciliation; `existing` is the set of
      the course's nodes as loaded before the passes. */
  datatype CourseScan = CourseScan(courseId: nat, coursePath: Path, existing: Store, policy: Policy)

  /** The three file checks, in the order the second pass applies them. */
  predicate SafeFile(ctx: CourseScan, f: DiskFile)
  {
    ctx.policy.safePath(f.path, ctx.coursePath)
  }

  predicate ExtensionOk(ctx: CourseScan, f: DiskFile)
  {
    ctx.policy.extensionOk(BaseName(f.path))
  }

  predicate SizeOk(ctx: CourseScan, f: DiskFile)
  {
    ctx.policy.sizeOk(f.size)
  }

  predicate Accepted(ctx: CourseScan, f: DiskFile)
  {
    SafeFile(ctx, f) && ExtensionOk(ctx, f) && SizeOk(ctx, f)
  }

  /** The parent id a new node gets: none directly under the course; else
      the id of the stored node at the parent path, else the id of a folder
      created earlier in this scan, else none. */
  function ParentFor(ctx: CourseScan, newFolders: map<Path, nat>, p: EntryPath): Option<nat>
  {
    var up := ParentOf(p);
    if up == ctx.coursePath then None
    else if up in ctx.existing then Some(ctx.existing[up].id)
    else if up in newFolders then Some(newFolders[up])
    else None
  }

  /** The state threaded through the two passes: the node table, the next
      free id, the paths seen, the folders created (path to id), the
      counters, the names rejected for their extension, and whether an
      insertion violated the unique path (the scan then fails). */
  datatype Walk = Walk(
    store: Store,
    nextId: nat,
    scanned: set<Path>,
    newFolders: map<Path, nat>,
    added: nat,
    updated: nat,
    extRejected: seq<string>,
    failed: bool)

  function FolderNode(ctx: CourseScan, w: Walk, d: EntryPath): FileNode
  {
    FileNode(w.nextId, ctx.courseId, BaseName(d), d, FolderType, ParentFor(ctx, w.newFolders, d), true, None)
  }

  function FileNodeFor(ctx: CourseScan, w: Walk, f: DiskFile): FileNode
  {
    FileNode(w.nextId, ctx.courseId, BaseName(f.path), f.path, ctx.policy.fileType(BaseName(f.path)),
             ParentFor(ctx, w.newFolders, f.path), false, f.size)
  }

  /** First pass, one directory: mark it seen; if the course has no node at
      that path, create a folder node (a path stored by another course
      makes the insertion fail). */
  function DirStep(ctx: CourseScan, w: Walk, d: EntryPath): (r: Walk)
    ensures w.failed ==> r == w
    ensures !w.failed ==> r.scanned == w.scanned + {d} && (r.failed <==> d !in ctx.existing && d in w.store)
    ensures r.extRejected == w.extRejected && r.updated == w.updated
    ensures d in ctx.existing ==> r.store == w.store && r.nextId == w.nextId && r.added == w.added
    ensures !r.failed && d !in ctx.existing ==>
              && d in r.store && r.store[d].isDirectory && r.store[d].path == d && r.store[d].id == w.nextId
              && r.store[d].courseId == ctx.courseId && r.nextId == w.nextId + 1 && r.added == w.added + 1
  {
    if w.failed then w
    else if d in ctx.existing then w.(scanned := w.scanned + {d})
    else if d in w.store then w.(scanned := w.scanned + {d}, failed := true)
    else
      w.(store := w.store[d := FolderNode(ctx, w, d)],
         nextId := w.nextId + 1,
         scanned := w.scanned + {d},
         newFolders := w.newFolders[d := w.nextId],
         added := w.added + 1)
  }

  /** Second pass, one file: skip it unless it passes the three checks (an
      extension failure is recorded); then `AcceptFile`. A failed insertion
      does not stop the pass: the session only raises at its next flush, so
      the files after it are still checked and their rejections recorded. */
  function FileStep(ctx: CourseScan, w: Walk, f: DiskFile): (r: Walk)
    ensures r.scanned == w.scanned + (if Accepted(ctx, f) then {f.path} else {})
    ensures r.extRejected == w.extRejected + (if SafeFile(ctx, f) && !ExtensionOk(ctx, f) then [BaseName(f.path)] else [])
    ensures w.failed ==> r.failed
    ensures !Accepted(ctx, f) ==> r.store == w.store && r.nextId == w.nextId && r.failed == w.failed
  {
    if !SafeFile(ctx, f) then w
    else if !ExtensionOk(ctx, f) then w.(extRejected := w.extRejected + [BaseName(f.path)])
    else if !SizeOk(ctx, f) then w
    else AcceptFile(ctx, w, f)
  }

  /** A file that passed the checks: mark it seen, then create a node if the
      course has none at that path (a path stored by another course makes
      the insertion fail), or overwrite the stored size when it differs. */
  function AcceptFile(ctx: CourseScan, w: Walk, f: DiskFile): (r: Walk)
    ensures r.scanned == w.scanned + {f.path} && r.extRejected == w.extRejected
    ensures r.failed <==> w.failed || (f.path !in ctx.existing && f.path in w.store)
    ensures f.path in ctx.existing ==>
              && r.nextId == w.nextId && r.added == w.added
              && (r.updated == w.updated + 1 <==> ctx.existing[f.path].size != f.size)
              && (ctx.existing[f.path].size != f.size ==> f.path in r.store && r.store[f.path] == ctx.existing[f.path].(size := f.size))
    ensures f.path !in ctx.existing && f.path !in w.store ==>
              && f.path in r.store && !r.store[f.path].isDirectory && r.store[f.path].size == f.size
              && r.store[f.path].id == w.nextId && r.store[f.path].courseId == ctx.courseId
              && r.nextId == w.nextId + 1 && r.added == w.added + 1
  {
    var p := f.path;
    var seen := w.(scanned := w.scanned + {p});
    if p !in ctx.existing then
      if p in w.store then seen.(failed := true)
      else seen.(store := w.store[p := FileNodeFor(ctx, w, f)], nextId := w.nextId + 1, added := w.added + 1)
    else if ctx.existing[p].size != f.size then
      seen.(store := w.store[p := ctx.existing[p].(size := f.size)], updated := w.updated + 1)
    else seen
  }

  /** The first pass: `DirStep` over the walk's directories in order. A
      failure stops it; otherwise it has seen every directory of the walk.
      It rejects nothing. */
  function DirPass(ctx: CourseScan, w: Walk, ds: seq<EntryPath>): (r: Walk)
    ensures w.failed ==> r == w
    ensures r.extRejected == w.extRejected
    ensures !r.failed ==> r.scanned == w.scanned + set d | d in ds
    decreases |ds|
  {
    if |ds| == 0 then w
    else
      var front := ds[..|ds| - 1];
      var prev := DirPass(ctx, w, front);
      assert (set d | d in ds) == (set d | d in front) + {ds[|ds| - 1]} by {
        assert forall d :: d in ds <==> d in front || d == ds[|ds| - 1];
      }
      DirStep(ctx, prev, ds[|ds| - 1])
  }

  /** The second pass: `FileStep` over the walk's files in order. A pending
      failure stays pending, the paths seen only grow and the rejections
      are only appended to. */
  function FilePass(ctx: CourseScan, w: Walk, fs: seq<DiskFile>): (r: Walk)
    ensures w.failed ==> r.failed
    ensures w.scanned <= r.scanned && w.extRejected <= r.extRejected
    decreases |fs|
  {
    if |fs| == 0 then w else FileStep(ctx, FilePass(ctx, w, fs[..|fs| - 1]), fs[|fs| - 1])
  }

  /** The result of `_scan_course_files`, with the store it leaves behind. */
  datatype CourseResult = CourseResult(
    store: Store,
    nextId: nat,
    added: nat,
    updated: nat,
    removed: nat,
    extRejected: seq<string>,
    ok: bool)

  function Context(courseId: nat, coursePath: Path, store: Store, policy: Policy): CourseScan
  {
    CourseScan(courseId, coursePath, CourseNodes(store, courseId), policy)
  }

  function StartWalk(store: Store, nextId: nat): Walk
  {
    Walk(store, nextId, {}, map[], 0, 0, [], false)
  }

  /** Both passes, then the deletion of the course's unseen nodes. A failed
      first pass raises at once, before any file is looked at; a failed
      second pass raises after it, with its rejections recorded. */
  function ScanCourse(courseId: nat, coursePath: Path, store: Store, nextId: nat, tree: CourseTree, policy: Policy): (r: CourseResult)
    ensures !r.ok ==> r.store == store && r.nextId == nextId && r.added == 0 && r.updated == 0 && r.removed == 0
  {
    var ctx := Context(courseId, coursePath, store, policy);
    var wd := DirPass(ctx, StartWalk(store, nextId), tree.dirs);
    if wd.failed then CourseResult(store, nextId, 0, 0, 0, [], false)
    else
      var w := FilePass(ctx, wd, tree.files);
      if w.failed then CourseResult(store, nextId, 0, 0, 0, w.extRejected, false)
      else
        var gone := ctx.existing.Keys - w.scanned;
        CourseResult(w.store - gone, w.nextId, w.added, w.updated, |gone|, w.extRejected, true)
  }

  /** `_scan_course_files` as written. Neither `FileNode.progress` nor the
      `last_viewed` foreign key cascades, so the database refuses, at the
      next flush, the deletion of an unseen node that a `user_progress` or
      `last_viewed` row refers to (`referenced` holds those rows' node
      ids), and the whole scan rolls back with the rejections recorded so
      far. `ScanCourse` is the intended reconciliation, in which such a node
      goes with the rows that refer to it. */
  function ScanCourseAsWritten(courseId: nat, coursePath: Path, store: Store, nextId: nat, tree: CourseTree,
                               policy: Policy, referenced: set<nat>): (r: CourseResult)
    ensures r.ok ==> r == ScanCourse(courseId, coursePath, store, nextId, tree, policy)
    ensures !r.ok ==> r.store == store && r.nextId == nextId
    ensures r.ok ==> forall p :: p in store && store[p].courseId == courseId && store[p].id in referenced ==> p in r.store
  {
    var r := ScanCourse(courseId, coursePath, store, nextId, tree, policy);
    var existing := CourseNodes(store, courseId);
    if r.ok && exists p :: p in existing && p !in r.store && existing[p].id in referenced
    then CourseResult(store, nextId, 0, 0, 0, r.extRejected, false)
    else r
  }

  /** A failed step stays failed. */
  lemma {:induction false} DirPassFailedStays(ctx: CourseScan, w: Walk, ds: seq<EntryPath>, k: nat)
    requires k <= |ds| && DirPass(ctx, w, ds[..k]).failed
    ensures DirPass(ctx, w, ds) == DirPass(ctx, w, ds[..k])
    decreases |ds| - k
  {
    if k < |ds| {
      assert ds[..k + 1][..k] == ds[..k];
      DirPassFailedStays(ctx, w, ds, k + 1);
    } else {
      assert ds[..k] == ds;
    }
  }

  lemma FileStepKeepsFailed(ctx: CourseScan, w: Walk, f: DiskFile)
    ensures w.failed ==> FileStep(ctx, w, f).failed
  {
  }

  /** A failed insertion of the second pass leaves the pass failed, however
      many files follow it. */
  lemma {:induction false} FilePassFailedStays(ctx: CourseScan, w: Walk, fs: seq<DiskFile>, k: nat)
    requires k <= |fs| && FilePass(ctx, w, fs[..k]).failed
    ensures FilePass(ctx, w, fs).failed
    decreases |fs| - k
  {
    if k < |fs| {
      assert fs[..k + 1][..k] == fs[..k];
      FileStepKeepsFailed(ctx, FilePass(ctx, w, fs[..k]), fs[k]);
      FilePassFailedStays(ctx, w, fs, k + 1);
    } else {
      assert fs[..k] == fs;
    }
  }

  lemma RemoveOneMore<K, V>(m: map<K, V>, gone: set<K>, k: K)
    requires k !in gone
    ensures m - (gone + {k}) == (m - gone) - {k}
    ensures |gone + {k}| == |gone| + 1
  {
  }

  lemma VisitOne<K>(all: set<K>, toVisit: set<K>, keep: set<K>, k: K)
    requires toVisit <= all && k in toVisit
    ensures (all - (toVisit - {k})) - keep
            == if k in keep then (all - toVisit) - keep else ((all - toVisit) - keep) + {k}
  {
  }

  /** Rows of the category and course tables. */
  datatype Category = Category(id: nat, name: string, path: Path)
  datatype Course = Course(id: nat, categoryId: nat, name: string, path: Path)

  /** The tables the scanner reads and writes, and the next free id. */
  datatype Db = Db(categories: seq<Category>, courses: seq<Course>, store: Store, nextId: nat)

  /** The first category with the given name, if any: the category found
      has the name; none found means none has it. */
  function FindCategory(categories: seq<Category>, name: string): (r: Option<Category>)
    ensures r.Some? ==> r.value in categories && r.value.name == name
    ensures r.None? ==> forall c :: c in categories ==> c.name != name
    decreases |categories|
  {
    if |categories| == 0 then None
    else if categories[0].name == name then Some(categories[0])
    else
      assert forall c :: c in categories ==> c == categories[0] || c in categories[1..];
      FindCategory(categories[1..], name)
  }

  /** The first course with the given category and name, if any: the
      course found has both; none found means none has both. */
  function FindCourse(courses: seq<Course>, categoryId: nat, name: string): (r: Option<Course>)
    ensures r.Some? ==> r.value in courses && r.value.categoryId == categoryId && r.value.name == name
    ensures r.None? ==> forall c :: c in courses ==> !(c.categoryId == categoryId && c.name == name)
    decreases |courses|
  {
    if |courses| == 0 then None
    else if courses[0].categoryId == categoryId && courses[0].name == name then Some(courses[0])
    else
      assert forall c :: c in courses ==> c == courses[0] || c in courses[1..];
      FindCourse(courses[1..], categoryId, name)
  }

  /** Appending a row when no earlier row matched makes it the one found. */
  lemma {:induction false} FindCourseAppend(courses: seq<Course>, course: Course)
    requires FindCourse(courses, course.categoryId, course.name).None?
    ensures FindCourse(courses + [course], course.categoryId, course.name) == Some(course)
    decreases |courses|
  {
    if |courses| > 0 {
      assert (courses + [course])[1..] == courses[1..] + [course];
      FindCourseAppend(courses[1..], course);
    }
  }

  lemma {:induction false} FindCategoryAppend(categories: seq<Category>, category: Category)
    requires FindCategory(categories, category.name).None?
    ensures FindCategory(categories + [category], category.name) == Some(category)
    decreases |categories|
  {
    if |categories| > 0 {
      assert (categories + [category])[1..] == categories[1..] + [category];
      FindCategoryAppend(categories[1..], category);
    }
  }

  /** A course directory of a category, with its subtree. */
  datatype CourseDir = CourseDir(name: string, tree: CourseTree)

  /** A category directory; `courses` is None when listing it fails. */
  datatype CategoryDir = CategoryDir(name: string, courses: Option<seq<CourseDir>>)

  /** The root folder: missing, present but not listable, or listed. */
  datatype RootListing = Missing | Unlistable | Listed(categories: seq<CategoryDir>)

  /** The five counters of a scan result. */
  datatype Totals = Totals(categoriesFound: nat, coursesFound: nat, filesAdded: nat, filesRemoved: nat, filesUpdated: nat)

  const NoTotals: Totals := Totals(0, 0, 0, 0, 0)

  /** The state threaded through the category and course loops. */
  datatype RootWalk = RootWalk(db: Db, totals: Totals, extRejected: seq<string>, ok: bool)

  /** Get or create the course, then reconcile its files. */
  function CourseStep(policy: Policy, categoryId: nat, categoryPath: Path, st: RootWalk, c: CourseDir): (r: RootWalk)
    ensures !st.ok ==> r == st
    ensures r.db.categories == st.db.categories && st.extRejected <= r.extRejected
    ensures st.ok && !r.ok ==> r.db.store == st.db.store
  {
    if !st.ok then st
    else
      var coursePath := categoryPath + [c.name];
      var pick := CourseRow(st.db, st.totals, categoryId, coursePath, c.name);
      CourseEnd(pick.db, pick.totals, st.extRejected,
                ScanCourse(pick.row.id, coursePath, pick.db.store, pick.db.nextId, c.tree, policy))
  }

  /** A row looked up or created, with the tables and counters after it. */
  datatype Pick<T> = Pick(db: Db, totals: Totals, row: T)

  /** Get or create the course with the given category and name: an existing
      row is reused and nothing changes; otherwise a new row takes the next
      id, is appended and counts as found. Either way the row picked is the
      one found afterwards, and the other tables are untouched. */
  function CourseRow(db: Db, t: Totals, categoryId: nat, coursePath: Path, name: string): (p: Pick<Course>)
    ensures p.row.categoryId == categoryId && p.row.name == name
    ensures FindCourse(p.db.courses, categoryId, name) == Some(p.row)
    ensures p.db.categories == db.categories && p.db.store == db.store && p.db.nextId >= db.nextId
    ensures FindCourse(db.courses, categoryId, name).Some? ==> p.db == db && p.totals == t
    ensures FindCourse(db.courses, categoryId, name).None? ==>
              p.db.courses == db.courses + [p.row] && p.totals.coursesFound == t.coursesFound + 1
  {
    match FindCourse(db.courses, categoryId, name)
    case Some(course) => Pick(db, t, course)
    case None =>
      var course := Course(db.nextId, categoryId, name, coursePath);
      FindCourseAppend(db.courses, course);
      Pick(db.(courses := db.courses + [course], nextId := db.nextId + 1),
           t.(coursesFound := t.coursesFound + 1), course)
  }

  /** Get or create the category with the given name, in the same way. */
  function CategoryRow(db: Db, t: Totals, categoryPath: Path, name: string): (p: Pick<Category>)
    ensures p.row.name == name && FindCategory(p.db.categories, name) == Some(p.row)
    ensures p.db.courses == db.courses && p.db.store == db.store && p.db.nextId >= db.nextId
    ensures FindCategory(db.categories, name).Some? ==> p.db == db && p.totals == t
    ensures FindCategory(db.categories, name).None? ==>
              p.db.categories == db.categories + [p.row] && p.totals.categoriesFound == t.categoriesFound + 1
  {
    match FindCategory(db.categories, name)
    case Some(category) => Pick(db, t, category)
    case None =>
      var category := Category(db.nextId, name, categoryPath);
      FindCategoryAppend(db.categories, category);
      Pick(db.(categories := db.categories + [category], nextId := db.nextId + 1),
           t.(categoriesFound := t.categoriesFound + 1), category)
  }

  /** Fold a course's scan result into the running state. */
  function CourseEnd(db: Db, t: Totals, extRejected: seq<string>, r: CourseResult): RootWalk
  {
    if !r.ok then RootWalk(db, t, extRejected + r.extRejected, false)
    else
      RootWalk(db.(store := r.store, nextId := r.nextId),
               t.(filesAdded := t.filesAdded + r.added,
                  filesRemoved := t.filesRemoved + r.removed,
                  filesUpdated := t.filesUpdated + r.updated),
               extRejected + r.extRejected, true)
  }

  /** The course loop of one category: `CourseStep` over its course
      directories. A failed state passes through unchanged, the categories
      are untouched, and rejections are only appended to. */
  function ScanCourses(policy: Policy, categoryId: nat, categoryPath: Path, st: RootWalk, cs: seq<CourseDir>): (r: RootWalk)
    ensures !st.ok ==> r == st
    ensures r.db.categories == st.db.categories && st.extRejected <= r.extRejected
    decreases |cs|
  {
    if |cs| == 0 then st
    else CourseStep(policy, categoryId, categoryPath, ScanCourses(policy, categoryId, categoryPath, st, cs[..|cs| - 1]), cs[|cs| - 1])
  }

  /** Get or create the category, then process its courses; a category
      that cannot be listed fails the scan. */
  function CategoryStep(policy: Policy, rootPath: Path, st: RootWalk, cat: CategoryDir): (r: RootWalk)
    ensures !st.ok ==> r == st
    ensures st.extRejected <= r.extRejected
    ensures st.ok && cat.courses.None? ==> !r.ok && r.db.store == st.db.store
  {
    if !st.ok then st
    else
      var pick := CategoryRow(st.db, st.totals, rootPath + [cat.name], cat.name);
      match cat.courses
      case None => RootWalk(pick.db, pick.totals, st.extRejected, false)
      case Some(cs) => ScanCourses(policy, pick.row.id, rootPath + [cat.name], RootWalk(pick.db, pick.totals, st.extRejected, true), cs)
  }

  /** The category loop: `CategoryStep` over the category directories. A
      failed state passes through unchanged and rejections are only
      appended to. */
  function ScanCategories(policy: Policy, rootPath: Path, st: RootWalk, cats: seq<CategoryDir>): (r: RootWalk)
    ensures !st.ok ==> r == st
    ensures st.extRejected <= r.extRejected
    decreases |cats|
  {
    if |cats| == 0 then st
    else CategoryStep(policy, rootPath, ScanCategories(policy, rootPath, st, cats[..|cats| - 1]), cats[|cats| - 1])
  }

  /** Once a course fails, the rest of the category's courses change nothing. */
  lemma {:induction false} ScanCoursesFailedStays(policy: Policy, categoryId: nat, categoryPath: Path,
                                                  st: RootWalk, cs: seq<CourseDir>, k: nat)
    requires k <= |cs| && !ScanCourses(policy, categoryId, categoryPath, st, cs[..k]).ok
    ensures ScanCourses(policy, categoryId, categoryPath, st, cs) == ScanCourses(policy, categoryId, categoryPath, st, cs[..k])
    decreases |cs| - k
  {
    if k < |cs| {
      assert cs[..k + 1][..k] == cs[..k];
      ScanCoursesFailedStays(policy, categoryId, categoryPath, st, cs, k + 1);
    } else {
      assert cs[..k] == cs;
    }
  }

  /** Once a category fails, the remaining categories change nothing. */
  lemma {:induction false} ScanCategoriesFailedStays(policy: Policy, rootPath: Path, st: RootWalk,
                                                     cats: seq<CategoryDir>, k: nat)
    requires k <= |cats| && !ScanCategories(policy, rootPath, st, cats[..k]).ok
    ensures ScanCategories(policy, rootPath, st, cats) == ScanCategories(policy, rootPath, st, cats[..k])
    decreases |cats| - k
  {
    if k < |cats| {
      assert cats[..k + 1][..k] == cats[..k];
      ScanCategoriesFailedStays(policy, rootPath, st, cats, k + 1);
    } else {
      assert cats[..k] == cats;
    }
  }

  /** The start of a failed scan's message; the source follows it with the
      text of the exception that stopped the scan. */
  const ScanErrorPrefix: string := "Error during scan: "

  /** The `ScanResult` of a plain scan. */
  datatype ScanResult = ScanResult(success: bool, message: string, totals: Totals)

  /** The outcome of `scan_root_folder`: the result, the tables left behind
      (unchanged unless the scan succeeded), and the file names rejected for
      their extension before the scan ended. */
  datatype RootResult = RootResult(result: ScanResult, db: Db, extRejected: seq<string>)

  function ScanRoot(db: Db, rootPath: Path, listing: RootListing, policy: Policy): (r: RootResult)
    ensures listing.Missing? ==> !r.result.success && r.extRejected == []
    ensures !r.result.success ==> r.db == db && r.result.totals == NoTotals
  {
    match listing
    case Missing => RootResult(ScanResult(false, "Root path does not exist", NoTotals), db, [])
    case Unlistable => RootResult(ScanResult(false, ScanErrorPrefix, NoTotals), db, [])
    case Listed(cats) =>
      var st := ScanCategories(policy, rootPath, RootWalk(db, NoTotals, [], true), cats);
      if st.ok then RootResult(ScanResult(true, "Scan completed successfully", st.totals), st.db, st.extRejected)
      else RootResult(ScanResult(false, ScanErrorPrefix, NoTotals), db, st.extRejected)
  }

  /** A category loop that fails at the `k`th category ends the scan
      unsuccessfully, with the tables as they were. */
  lemma ScanRootStops(db: Db, rootPath: Path, cats: seq<CategoryDir>, policy: Policy, k: nat)
    requires k <= |cats| && !ScanCategories(policy, rootPath, RootWalk(db, NoTotals, [], true), cats[..k]).ok
    ensures ScanRoot(db, rootPath, Listed(cats), policy)
         == RootResult(ScanResult(false, ScanErrorPrefix, NoTotals), db,
                       ScanCategories(policy, rootPath, RootWalk(db, NoTotals, [], true), cats[..k]).extRejected)
  {
    ScanCategoriesFailedStays(policy, rootPath, RootWalk(db, NoTotals, [], true), cats, k);
  }

  /** The body of the second pass for a file that passed the checks, on the
      pass's local copies of the node table and counters. */
  method StoreFile(ctx: CourseScan, f: DiskFile, store: Store, next: nat, scanned: set<Path>,
                   newFolders: map<Path, nat>, added: nat, updated: nat, extRejected: seq<string>, ghost failed: bool)
    returns (store': Store, next': nat, scanned': set<Path>, added': nat, updated': nat, ok: bool)
    ensures ok <==> f.path in ctx.existing || f.path !in store
    ensures AcceptFile(ctx, Walk(store, next, scanned, newFolders, added, updated, extRejected, failed), f)
         == Walk(store', next', scanned', newFolders, added', updated', extRejected, failed || !ok)
  {
    var w := Walk(store, next, scanned, newFolders, added, updated, extRejected, failed);
    var p := f.path;
    store', next', scanned', added', updated' := store, next, scanned + {p}, added, updated;
    ok := true;
    if p !in ctx.existing {
      if p in store {
        ok := false;
        return;
      }
      var parentId: Option<nat> := None;
      if ParentOf(p) != ctx.coursePath {
        if ParentOf(p) in ctx.existing {
          parentId := Some(ctx.existing[ParentOf(p)].id);
        } else if ParentOf(p) in newFolders {
          parentId := Some(newFolders[ParentOf(p)]);
        }
      }
      assert parentId == ParentFor(ctx, newFolders, p);
      var node := FileNode(next, ctx.courseId, BaseName(p), p, ctx.policy.fileType(BaseName(p)), parentId, false, f.size);
      assert node == FileNodeFor(ctx, w, f);
      store' := store[p := node];
      next' := next + 1;
      added' := added + 1;
      assert AcceptFile(ctx, w, f) == Walk(store', next', scanned', newFolders, added', updated', extRejected, failed);
    } else if ctx.existing[p].size != f.size {
      store' := store[p := ctx.existing[p].(size := f.size)];
      updated' := updated + 1;
      assert AcceptFile(ctx, w, f) == Walk(store', next', scanned', newFolders, added', updated', extRejected, failed);
    } else {
      assert AcceptFile(ctx, w, f) == Walk(store', next', scanned', newFolders, added', updated', extRejected, failed);
    }
  }

  /** The scanner's view of the database: the category, course and node
      tables and the id sequence, changed in place by the scan. */
  class Catalog {
    var categories: seq<Category>
    var courses: seq<Course>
    var nodes: Store
    var nextId: nat

    function State(): Db
      reads this
    {
      Db(categories, courses, nodes, nextId)
    }

    constructor (db: Db)
      ensures State() == db
    {
      categories := db.categories;
      courses := db.courses;
      nodes := db.store;
      nextId := db.nextId;
    }

    /** The first pass of `_scan_course_files`: a folder node for every
        directory the course has no node for, or failure at the first path
        stored by another course. */
    method PassDirectories(ctx: CourseScan, dirs: seq<EntryPath>)
      returns (scanned: set<Path>, newFolders: map<Path, nat>, added: nat, ok: bool)
      modifies this
      ensures var w := DirPass(ctx, StartWalk(old(nodes), old(nextId)), dirs);
        ok == !w.failed && w.extRejected == []
        && (ok ==> w == Walk(nodes, nextId, scanned, newFolders, added, 0, [], false))
      ensures categories == old(categories) && courses == old(courses)
    {
      ghost var start := StartWalk(nodes, nextId);
      var store, next := nodes, nextId;
      scanned, newFolders, added := {}, map[], 0;
      var i := 0;
      while i < |dirs|
        invariant 0 <= i <= |dirs|
        invariant nodes == old(nodes) && nextId == old(nextId)
        invariant DirPass(ctx, start, dirs[..i]) == Walk(store, next, scanned, newFolders, added, 0, [], false)
      {
        var d := dirs[i];
        assert dirs[..i + 1][..i] == dirs[..i];
        scanned := scanned + {d};
        if d !in ctx.existing {
          if d in store {
            DirPassFailedStays(ctx, start, dirs, i + 1);
            ok := false;
            return;
          }
          var parentId: Option<nat> := None;
          if ParentOf(d) != ctx.coursePath {
            if ParentOf(d) in ctx.existing {
              parentId := Some(ctx.existing[ParentOf(d)].id);
            } else if ParentOf(d) in newFolders {
              parentId := Some(newFolders[ParentOf(d)]);
            }
          }
          store := store[d := FileNode(next, ctx.courseId, BaseName(d), d, FolderType, parentId, true, None)];
          newFolders := newFolders[d := next];
          next := next + 1;
          added := added + 1;
        }
        i := i + 1;
      }
      assert dirs[..i] == dirs;
      nodes, nextId := store, next;
      ok := true;
    }

    /** The second pass: each file that passes the three checks gets a node,
        or its stored size is overwritten when it differs. A failed insertion
        is remembered and the pass goes on to the end. */
    method PassFiles(ctx: CourseScan, ghost w0: Walk, files: seq<DiskFile>,
                     scanned0: set<Path>, newFolders: map<Path, nat>, added0: nat)
      returns (scanned: set<Path>, added: nat, updated: nat, extRejected: seq<string>, ok: bool)
      requires w0 == Walk(nodes, nextId, scanned0, newFolders, added0, 0, [], false)
      modifies this
      ensures FilePass(ctx, w0, files) == Walk(nodes, nextId, scanned, newFolders, added, updated, extRejected, !ok)
      ensures categories == old(categories) && courses == old(courses)
    {
      var store, next := nodes, nextId;
      scanned, added, updated, extRejected := scanned0, added0, 0, [];
      ok := true;
      var j := 0;
      while j < |files|
        invariant 0 <= j <= |files|
        invariant nodes == old(nodes) && nextId == old(nextId)
        invariant FilePass(ctx, w0, files[..j])
                  == Walk(store, next, scanned, newFolders, added, updated, extRejected, !ok)
        invariant categories == old(categories) && courses == old(courses)
      {
        var f := files[j];
        assert files[..j + 1][..j] == files[..j];
        ghost var before := Walk(store, next, scanned, newFolders, added, updated, extRejected, !ok);
        assert FilePass(ctx, w0, files[..j + 1]) == FileStep(ctx, before, f);
        if SafeFile(ctx, f) {
          if !ExtensionOk(ctx, f) {
            extRejected := extRejected + [BaseName(f.path)];
          } else if SizeOk(ctx, f) {
            var stored;
            store, next, scanned, added, updated, stored :=
              StoreFile(ctx, f, store, next, scanned, newFolders, added, updated, extRejected, !ok);
            ok := ok && stored;
          }
        }
        j := j + 1;
      }
      assert files[..j] == files;
      nodes, nextId := store, next;
    }

    /** The deletion step: every node of `existing` whose path is not in
        `scanned` is removed, and the removals are counted. */
    method DeleteUnseen(existing: Store, scanned: set<Path>) returns (removed: nat)
      modifies this
      ensures nodes == old(nodes) - (existing.Keys - scanned)
      ensures removed == |existing.Keys - scanned|
      ensures nextId == old(nextId) && categories == old(categories) && courses == old(courses)
    {
      removed := 0;
      var toVisit := existing.Keys;
      var kept := nodes;
      ghost var gone: set<Path> := {};
      while toVisit != {}
        invariant toVisit <= existing.Keys
        invariant gone == (existing.Keys - toVisit) - scanned
        invariant removed == |gone|
        invariant kept == old(nodes) - gone
        invariant nodes == old(nodes) && nextId == old(nextId)
        invariant categories == old(categories) && courses == old(courses)
        decreases |toVisit|
      {
        var p :| p in toVisit;
        VisitOne(existing.Keys, toVisit, scanned, p);
        if p !in scanned {
          RemoveOneMore(old(nodes), gone, p);
          kept := kept - {p};
          gone := gone + {p};
          removed := removed + 1;
        }
        toVisit := toVisit - {p};
      }
      nodes := kept;
    }

    /** The course lookup of `scan_root_folder`: reuse the course with this
        category and name, or add a new one. */
    method GetOrCreateCourse(categoryId: nat, coursePath: Path, name: string, totals: Totals)
      returns (course: Course, totals': Totals)
      modifies this
      ensures Pick(State(), totals', course) == CourseRow(old(State()), totals, categoryId, coursePath, name)
    {
      var found := FindCourse(courses, categoryId, name);
      if found.Some? {
        course, totals' := found.value, totals;
      } else {
        course := Course(nextId, categoryId, name, coursePath);
        courses := courses + [course];
        nextId := nextId + 1;
        totals' := totals.(coursesFound := totals.coursesFound + 1);
      }
    }

    /** The category lookup of `scan_root_folder`, in the same way. */
    method GetOrCreateCategory(categoryPath: Path, name: string, totals: Totals)
      returns (category: Category, totals': Totals)
      modifies this
      ensures Pick(State(), totals', category) == CategoryRow(old(State()), totals, categoryPath, name)
    {
      var found := FindCategory(categories, name);
      if found.Some? {
        category, totals' := found.value, totals;
      } else {
        category := Category(nextId, name, categoryPath);
        categories := categories + [category];
        nextId := nextId + 1;
        totals' := totals.(categoriesFound := totals.categoriesFound + 1);
      }
    }

    /** One course of the inner loop of `scan_root_folder`: get or create
        the course row, then scan its files. On failure the tables are left
        as the failed course scan left them, for the caller to roll back. */
    method VisitCourse(policy: Policy, categoryId: nat, categoryPath: Path, c: CourseDir,
                       totals: Totals, extRejected: seq<string>)
      returns (totals': Totals, extRejected': seq<string>, ok: bool)
      modifies this
      ensures var r := CourseStep(policy, categoryId, categoryPath, RootWalk(old(State()), totals, extRejected, true), c);
        ok == r.ok && extRejected' == r.extRejected && (ok ==> State() == r.db && totals' == r.totals)
    {
      var coursePath := categoryPath + [c.name];
      var course;
      course, totals' := GetOrCreateCourse(categoryId, coursePath, c.name, totals);
      ghost var db := State();
      ghost var t := totals';
      ghost var r := ScanCourse(course.id, coursePath, nodes, nextId, c.tree, policy);
      assert CourseStep(policy, categoryId, categoryPath, RootWalk(old(State()), totals, extRejected, true), c)
          == CourseEnd(db, t, extRejected, r);
      var added, updated, removed, rejected;
      added, updated, removed, rejected, ok := ScanCourseFiles(course.id, coursePath, c.tree, policy);
      extRejected' := extRejected + rejected;
      if ok {
        totals' := totals'.(filesAdded := totals'.filesAdded + added,
                            filesRemoved := totals'.filesRemoved + removed,
                            filesUpdated := totals'.filesUpdated + updated);
      }
    }

    /** The inner loop of `scan_root_folder` over one category's courses,
        stopping at the first failure. */
    method VisitCourses(policy: Policy, categoryId: nat, categoryPath: Path, cs: seq<CourseDir>,
                        totals: Totals, extRejected: seq<string>)
      returns (totals': Totals, extRejected': seq<string>, ok: bool)
      modifies this
      ensures var r := ScanCourses(policy, categoryId, categoryPath, RootWalk(old(State()), totals, extRejected, true), cs);
        ok == r.ok && extRejected' == r.extRejected && (ok ==> State() == r.db && totals' == r.totals)
    {
      ghost var first := RootWalk(State(), totals, extRejected, true);
      totals', extRejected', ok := totals, extRejected, true;
      var j := 0;
      while j < |cs|
        invariant 0 <= j <= |cs|
        invariant ScanCourses(policy, categoryId, categoryPath, first, cs[..j]) == RootWalk(State(), totals', extRejected', true)
      {
        assert cs[..j + 1][..j] == cs[..j];
        totals', extRejected', ok := VisitCourse(policy, categoryId, categoryPath, cs[j], totals', extRejected');
        if !ok {
          ScanCoursesFailedStays(policy, categoryId, categoryPath, first, cs, j + 1);
          return;
        }
        j := j + 1;
      }
      assert cs[..j] == cs;
    }

    /** One category of `scan_root_folder`: get or create the category row,
        then visit its courses; a category that cannot be listed fails. */
    method VisitCategory(policy: Policy, rootPath: Path, cat: CategoryDir, totals: Totals, extRejected: seq<string>)
      returns (totals': Totals, extRejected': seq<string>, ok: bool)
      modifies this
      ensures var r := CategoryStep(policy, rootPath, RootWalk(old(State()), totals, extRejected, true), cat);
        ok == r.ok && extRejected' == r.extRejected && (ok ==> State() == r.db && totals' == r.totals)
    {
      extRejected' := extRejected;
      var category;
      category, totals' := GetOrCreateCategory(rootPath + [cat.name], cat.name, totals);
      if cat.courses.None? {
        ok := false;
        return;
      }
      totals', extRejected', ok := VisitCourses(policy, category.id, rootPath + [cat.name], cat.courses.value, totals', extRejected');
    }

    /** `scan_root_folder`: visit every category and commit, or restore the
        tables as they were before the scan at the first failure. */
    method ScanRootFolder(rootPath: Path, listing: RootListing, policy: Policy)
      returns (result: ScanResult, extRejected: seq<string>)
      modifies this
      ensures var r := ScanRoot(old(State()), rootPath, listing, policy);
        result == r.result && State() == r.db && extRejected == r.extRejected
    {
      extRejected := [];
      if listing.Missing? {
        result := ScanResult(false, "Root path does not exist", NoTotals);
        return;
      }
      if listing.Unlistable? {
        result := ScanResult(false, ScanErrorPrefix, NoTotals);
        return;
      }
      result, extRejected := ScanCategoryDirs(rootPath, listing.categories, policy);
    }

    /** The category loop of `scan_root_folder` over a listed root. */
    method ScanCategoryDirs(rootPath: Path, cats: seq<CategoryDir>, policy: Policy)
      returns (result: ScanResult, extRejected: seq<string>)
      modifies this
      ensures var r := ScanRoot(old(State()), rootPath, Listed(cats), policy);
        result == r.result && State() == r.db && extRejected == r.extRejected
    {
      extRejected := [];
      var snapshot := State();
      ghost var start := RootWalk(snapshot, NoTotals, [], true);
      var totals := NoTotals;
      var i := 0;
      while i < |cats|
        invariant 0 <= i <= |cats|
        invariant ScanCategories(policy, rootPath, start, cats[..i]) == RootWalk(State(), totals, extRejected, true)
      {
        assert cats[..i + 1][..i] == cats[..i];
        var ok;
        totals, extRejected, ok := VisitCategory(policy, rootPath, cats[i], totals, extRejected);
        if !ok {
          ScanRootStops(snapshot, rootPath, cats, policy, i + 1);
          categories, courses, nodes, nextId := snapshot.categories, snapshot.courses, snapshot.store, snapshot.nextId;
          result := ScanResult(false, ScanErrorPrefix, NoTotals);
          return;
        }
        i := i + 1;
      }
      assert cats[..i] == cats;
      result := ScanResult(true, "Scan completed successfully", totals);
    }

    /** `_scan_course_files`. On success the node table, the id sequence and
        the counters are those of `ScanCourse`; on failure the caller rolls
        back, and only the recorded rejections survive. */
    method ScanCourseFiles(courseId: nat, coursePath: Path, tree: CourseTree, policy: Policy)
      returns (added: nat, updated: nat, removed: nat, extRejected: seq<string>, ok: bool)
      modifies this
      ensures var r := ScanCourse(courseId, coursePath, old(nodes), old(nextId), tree, policy);
        ok == r.ok && extRejected == r.extRejected
        && (ok ==> nodes == r.store && nextId == r.nextId
                   && added == r.added && updated == r.updated && removed == r.removed)
      ensures categories == old(categories) && courses == old(courses)
    {
      var existing := CourseNodes(nodes, courseId);
      var ctx := CourseScan(courseId, coursePath, existing, policy);
      ghost var start := StartWalk(nodes, nextId);
      var scanned, newFolders;
      scanned, newFolders, added, ok := PassDirectories(ctx, tree.dirs);
      updated, removed, extRejected := 0, 0, [];
      if !ok {
        return;
      }
      ghost var afterDirs := DirPass(ctx, start, tree.dirs);
      scanned, added, updated, extRejected, ok := PassFiles(ctx, afterDirs, tree.files, scanned, newFolders, added);
      if !ok {
        return;
      }
      removed := DeleteUnseen(existing, scanned);
    }
  }
}
